/** Pure view logic of components.tsx: the Money Panel's choice of opportunities and its
    score badge, and the naming of the API-key inputs with their status icon. */
module Components {
  import opened Text
  import opened Pages

  // ------------------------------------------------------------------ Money Panel

  const MinOpportunity: int := 20
  const MaxOpportunities: nat := 10
  const HighlightAbove: int := 80

  /** `p.opportunityScore || 0`. */
  function Score(p: SitemapPage): int {
    if p.opportunityScore.Some? then p.opportunityScore.value else 0
  }

  predicate IsOpportunity(p: SitemapPage) {
    Score(p) > MinOpportunity
  }

  /** Each page scores at least as much as the next one. */
  predicate SortedDesc(xs: seq<SitemapPage>) {
    |xs| <= 1 || (Score(xs[0]) >= Score(xs[1]) && SortedDesc(xs[1..]))
  }

  /** Adjacent order gives order between any two positions. */
  lemma {:induction false} SortedDescAt(xs: seq<SitemapPage>, i: nat, j: nat)
    requires SortedDesc(xs)
    requires i <= j < |xs|
    ensures Score(xs[i]) >= Score(xs[j])
    decreases |xs|
  {
    if 0 < i {
      SortedDescAt(xs[1..], i - 1, j - 1);
    } else if 0 < j {
      SortedDescAt(xs[1..], 0, j - 1);
    }
  }

  lemma {:induction false} SortedDescPrefix(xs: seq<SitemapPage>, m: nat)
    requires SortedDesc(xs)
    requires m <= |xs|
    ensures SortedDesc(xs[..m])
    decreases m
  {
    if 2 <= m {
      SortedDescPrefix(xs[1..], m - 1);
      assert xs[..m][1..] == xs[1..][..m - 1];
    }
  }

  /** Puts `x` after every element scoring at least as much, so that equal scores keep
      their order. */
  function Insert(x: SitemapPage, ys: seq<SitemapPage>): (r: seq<SitemapPage>)
    ensures |r| == |ys| + 1
    decreases |ys|
  {
    if ys == [] then [x]
    else if Score(ys[0]) >= Score(x) then
      [ys[0]] + Insert(x, ys[1..])
    else
      [x] + ys
  }

  /** The comparator sort `(a, b) => score(b) - score(a)`; `Array.prototype.sort` is
      stable, so the result is the one sequence that is ordered, a permutation of the
      input, and keeps equal scores in input order (`SortStable`). */
  function SortDesc(xs: seq<SitemapPage>): (r: seq<SitemapPage>)
    ensures |r| == |xs|
    decreases |xs|
  {
    if xs == [] then []
    else
      var n := |xs| - 1;
      Insert(xs[n], SortDesc(xs[..n]))
  }

  /** Inserting into an ordered sequence keeps it ordered; the first page is then the new
      one or the old first one. */
  lemma {:induction false} InsertSorted(x: SitemapPage, ys: seq<SitemapPage>)
    requires SortedDesc(ys)
    ensures SortedDesc(Insert(x, ys))
    ensures Insert(x, ys)[0] == x || (ys != [] && Insert(x, ys)[0] == ys[0])
    decreases |ys|
  {
    if ys != [] && Score(ys[0]) >= Score(x) {
      var rest := Insert(x, ys[1..]);
      InsertSorted(x, ys[1..]);
      assert Insert(x, ys) == [ys[0]] + rest;
      assert (ys[1..] != [] ==> Score(ys[0]) >= Score(ys[1..][0])) && Score(ys[0]) >= Score(rest[0]);
      assert ([ys[0]] + rest)[1..] == rest;
    }
  }

  /** The sort's result is ordered best first. */
  lemma {:induction false} SortSorted(xs: seq<SitemapPage>)
    ensures SortedDesc(SortDesc(xs))
    decreases |xs|
  {
    if xs != [] {
      var n := |xs| - 1;
      SortSorted(xs[..n]);
      InsertSorted(xs[n], SortDesc(xs[..n]));
    }
  }

  lemma {:induction false} InsertPermutes(x: SitemapPage, ys: seq<SitemapPage>)
    ensures multiset(Insert(x, ys)) == multiset(ys) + multiset{x}
    decreases |ys|
  {
    if ys != [] && Score(ys[0]) >= Score(x) {
      InsertPermutes(x, ys[1..]);
      assert ys == [ys[0]] + ys[1..];
    }
  }

  /** The sort only reorders. */
  lemma {:induction false} SortPermutes(xs: seq<SitemapPage>)
    ensures multiset(SortDesc(xs)) == multiset(xs)
    decreases |xs|
  {
    if xs != [] {
      var n := |xs| - 1;
      var init := xs[..n];
      SortPermutes(init);
      InsertPermutes(xs[n], SortDesc(init));
      assert multiset(xs) == multiset(init) + multiset{xs[n]} by {
        assert xs == init + [xs[n]];
      }
    }
  }

  function ScoreIs(s: int): SitemapPage -> bool {
    p => Score(p) == s
  }

  lemma {:induction false} KeepSingle(x: SitemapPage, f: SitemapPage -> bool)
    ensures Keep([x], f) == (if f(x) then [x] else [])
  {
    assert [x][..0] == [];
  }

  /** Inserting a page adds it to the end of the pages of its own score. */
  lemma {:induction false} InsertStable(x: SitemapPage, ys: seq<SitemapPage>, s: int)
    requires SortedDesc(ys)
    ensures Keep(Insert(x, ys), ScoreIs(s)) == Keep(ys, ScoreIs(s)) + Keep([x], ScoreIs(s))
    decreases |ys|
  {
    var f := ScoreIs(s);
    if ys == [] {
      assert Insert(x, ys) == [x];
    } else if Score(ys[0]) >= Score(x) {
      InsertStable(x, ys[1..], s);
      assert Insert(x, ys) == [ys[0]] + Insert(x, ys[1..]);
      assert ys == [ys[0]] + ys[1..];
      KeepPassesHead(ys[0], ys[1..], Insert(x, ys[1..]), x, f);
    } else {
      assert Insert(x, ys) == [x] + ys;
      KeepAppend([x], ys, f);
      if f(x) {
        forall k | 0 <= k < |ys| ensures !f(ys[k]) {
          SortedDescAt(ys, 0, k);
        }
        KeepNone(ys, f);
      } else {
        KeepSingle(x, f);
      }
    }
  }

  lemma {:induction false} KeepPassesHead(y: SitemapPage, tail: seq<SitemapPage>, rest: seq<SitemapPage>, x: SitemapPage, f: SitemapPage -> bool)
    requires Keep(rest, f) == Keep(tail, f) + Keep([x], f)
    ensures Keep([y] + rest, f) == Keep([y] + tail, f) + Keep([x], f)
  {
    KeepAppend([y], tail, f);
    KeepAppend([y], rest, f);
    var ky, kt, kx := Keep([y], f), Keep(tail, f), Keep([x], f);
    assert ky + (kt + kx) == (ky + kt) + kx;
  }

  lemma {:induction false} KeepNone(xs: seq<SitemapPage>, keep: SitemapPage -> bool)
    requires forall k :: 0 <= k < |xs| ==> !keep(xs[k])
    ensures Keep(xs, keep) == []
    decreases |xs|
  {
    if xs != [] {
      KeepNone(xs[..|xs| - 1], keep);
    }
  }

  /** Pages with the same score come out of the sort in the order they went in. */
  lemma {:induction false} SortStable(xs: seq<SitemapPage>, s: int)
    ensures Keep(SortDesc(xs), ScoreIs(s)) == Keep(xs, ScoreIs(s))
    decreases |xs|
  {
    if xs != [] {
      var n := |xs| - 1;
      SortStable(xs[..n], s);
      SortSorted(xs[..n]);
      InsertStable(xs[n], SortDesc(xs[..n]), s);
      assert xs == xs[..n] + [xs[n]];
      KeepAppend(xs[..n], [xs[n]], ScoreIs(s));
    }
  }

  /** `useMemo` in `MoneyPanel`: the pages scoring above 20, best first, at most ten. */
  function Opportunities(pages: seq<SitemapPage>): (r: seq<SitemapPage>)
    ensures |r| <= MaxOpportunities
    ensures forall k :: 0 <= k < |r| ==> IsOpportunity(r[k])
    ensures SortedDesc(r)
  {
    var sorted := SortDesc(Keep(pages, IsOpportunity));
    var m := if |sorted| < MaxOpportunities then |sorted| else MaxOpportunities;
    SortedAreOpportunities(pages);
    SortSorted(Keep(pages, IsOpportunity));
    SortedDescPrefix(sorted, m);
    assert forall k :: 0 <= k < m ==> sorted[..m][k] == sorted[k];
    sorted[..m]
  }

  /** Every page the sort puts out is a qualifying one. */
  lemma {:induction false} SortedAreOpportunities(pages: seq<SitemapPage>)
    ensures forall k :: 0 <= k < |SortDesc(Keep(pages, IsOpportunity))| ==>
              IsOpportunity(SortDesc(Keep(pages, IsOpportunity))[k])
  {
    var qualifying := Keep(pages, IsOpportunity);
    var sorted := SortDesc(qualifying);
    KeepFacts(pages, IsOpportunity);
    SortPermutes(qualifying);
    forall k | 0 <= k < |sorted| ensures IsOpportunity(sorted[k]) {
      assert sorted[k] in multiset(qualifying);
    }
  }

  /** The panel lists min(k, 10) of the k qualifying pages, all of them taken from the
      input, and no page left out scores more than a page listed. */
  lemma {:induction false} OpportunitiesAreTop(pages: seq<SitemapPage>)
    ensures var qualifying := Keep(pages, IsOpportunity);
            var r := Opportunities(pages);
            && |r| == (if |qualifying| < MaxOpportunities then |qualifying| else MaxOpportunities)
            && multiset(r) <= multiset(qualifying)
            && forall x, y :: x in r && y in multiset(qualifying) - multiset(r) ==> Score(x) >= Score(y)
  {
    var qualifying := Keep(pages, IsOpportunity);
    var sorted := SortDesc(qualifying);
    var m := if |sorted| < MaxOpportunities then |sorted| else MaxOpportunities;
    SortPermutes(qualifying);
    SortSorted(qualifying);
    SortedSplit(sorted, m);
    assert sorted == sorted[..m] + sorted[m..];
    assert multiset(qualifying) == multiset(sorted[..m]) + multiset(sorted[m..]);
  }

  /** In a sequence ordered best first, everything before a cut scores at least as much as
      everything after it. */
  lemma {:induction false} SortedSplit(sorted: seq<SitemapPage>, m: nat)
    requires SortedDesc(sorted) && m <= |sorted|
    ensures forall x, y :: x in sorted[..m] && y in multiset(sorted[m..]) ==> Score(x) >= Score(y)
  {
    forall x, y | x in sorted[..m] && y in multiset(sorted[m..]) ensures Score(x) >= Score(y) {
      var i :| 0 <= i < m && sorted[..m][i] == x;
      var j :| 0 <= j < |sorted| - m && sorted[m..][j] == y;
      SortedDescAt(sorted, i, m + j);
    }
  }

  /** The panel only lists pages whose score is above 20; a page without a score never
      appears. */
  lemma {:induction false} UnscoredNeverListed(pages: seq<SitemapPage>, p: SitemapPage)
    requires p.opportunityScore.None?
    ensures p !in Opportunities(pages)
  {
  }

  // ------------------------------------------------------------------ score badge

  const HighlightBackground: string := "rgba(16, 185, 129, 0.2)"
  const HighlightColor: string := "#10B981"
  const PlainBackground: string := "rgba(245, 158, 11, 0.2)"
  const PlainColor: string := "#F59E0B"

  datatype BadgeStyle = BadgeStyle(background: string, color: string)

  /** The badge colours: green when the score is above 80, amber otherwise (an absent score
      compares as false). */
  function Badge(p: SitemapPage): (b: BadgeStyle)
    ensures b.color == HighlightColor <==> p.opportunityScore.Some? && p.opportunityScore.value > HighlightAbove
    ensures b.background == HighlightBackground <==> b.color == HighlightColor
  {
    if p.opportunityScore.Some? && p.opportunityScore.value > HighlightAbove
    then BadgeStyle(HighlightBackground, HighlightColor)
    else BadgeStyle(PlainBackground, PlainColor)
  }

  /** Every listed opportunity's badge is green exactly when its score is above 80. */
  lemma {:induction false} ListedBadges(pages: seq<SitemapPage>)
    ensures forall p :: p in Opportunities(pages) ==> (Badge(p).color == HighlightColor <==> Score(p) > HighlightAbove)
  {
  }

  // ------------------------------------------------------------------ API-key inputs

  const KeySuffix: string := "ApiKey"

  /** The `name` of a provider's key input. */
  function FieldName(provider: string): (name: string)
    ensures |name| == |provider| + |KeySuffix|
    ensures name[..|provider|] == provider && name[|provider|..] == KeySuffix
  {
    provider + KeySuffix
  }

  /** `name.replace('ApiKey', '')`: the first occurrence is removed. */
  function ProviderOf(name: string): (provider: string)
    ensures !Contains(name, KeySuffix) ==> provider == name
    ensures Contains(name, KeySuffix) ==> |provider| == |name| - |KeySuffix|
  {
    match IndexOf(name, KeySuffix, 0)
    case None => name
    case Some(i) => name[..i] + name[i + |KeySuffix|..]
  }

  /** No occurrence of the suffix starts inside the provider's name when the name does not
      hold it: only its first letter is an 'A'. */
  lemma {:induction false} FirstSuffixAtEnd(provider: string)
    requires !Contains(provider, KeySuffix)
    ensures IndexOf(FieldName(provider), KeySuffix, 0) == Some(|provider|)
  {
    var name := FieldName(provider);
    var n := |provider|;
    ContainsIff(provider, KeySuffix);
    forall j | 0 <= j < n ensures !OccursAt(name, KeySuffix, j) {
      if j + |KeySuffix| <= n {
        assert provider[j..j + |KeySuffix|] == name[j..j + |KeySuffix|];
        assert !OccursAt(provider, KeySuffix, j);
      } else {
        assert name[j..j + |KeySuffix|][n - j] == name[n] == 'A';
        assert KeySuffix[n - j] != 'A';
      }
    }
    IndexOfIs(name, KeySuffix, 0, n);
  }

  /** The key handler recovers the provider from the input's name, for provider names that
      do not themselves contain "ApiKey". */
  lemma {:induction false} ProviderRoundTrip(provider: string)
    requires !Contains(provider, KeySuffix)
    ensures ProviderOf(FieldName(provider)) == provider
  {
    FirstSuffixAtEnd(provider);
    var name := FieldName(provider);
    assert name[|provider| + |KeySuffix|..] == [];
  }

  /** A provider name holding "ApiKey" does not come back. */
  lemma {:induction false} ProviderRoundTripNeedsPlainName()
    ensures ProviderOf(FieldName("ApiKeyX")) == "XApiKey"
  {
    var name := FieldName("ApiKeyX");
    assert OccursAt(name, KeySuffix, 0);
    IndexOfIs(name, KeySuffix, 0, 0);
  }

  datatype Icon = CheckIcon | CrossIcon

  /** The status icon next to a key input. */
  function StatusIcon(status: string): (icon: Option<Icon>)
    ensures icon == Some(CheckIcon) <==> status == "valid"
    ensures icon == Some(CrossIcon) <==> status == "invalid"
    ensures icon.None? <==> status != "valid" && status != "invalid"
  {
    if status == "valid" then Some(CheckIcon)
    else if status == "invalid" then Some(CrossIcon)
    else None
  }
}
