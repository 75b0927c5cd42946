/** The per-item pipeline of the ingestion route's `GET` handler: age filter,
    relevance filter, de-duplication by guid against the store, then the
    record is built and inserted. A run processes the feeds in order and
    stops at the first feed that cannot be fetched. */
module Ingest {
  import opened Wrappers
  import opened Text
  import opened DisplayDate
  import opened Feed
  import opened Relevance
  import opened Company

  /** The `jobs` table, keyed by guid. */
  type Store = map<string, Record>

  /** How the pipeline disposed of one item. */
  datatype Fate = SkippedOld | SkippedIrrelevant | SkippedDuplicate | Inserted | InsertFailed

  /** Every row of `s` is in `t`, unchanged. */
  predicate Extends(s: Store, t: Store) {
    forall g :: g in s ==> g in t && t[g] == s[g]
  }

  lemma ExtendsTransitive(s: Store, t: Store, u: Store)
    requires Extends(s, t) && Extends(t, u)
    ensures Extends(s, u)
  {
  }

  // -------------------------------------------------------- description

  const PublishedOpen: string := "<p><strong>Published on:</strong> "
  const PublishedClose: string := "</p><br>"

  /** `descriptionWithDate`: the publication note, then the content or `''`. */
  function Describe(formatted: string, content: Option<string>): string {
    PublishedOpen + formatted + PublishedClose + OrEmpty(content)
  }

  /** Reads the publication date and the original content back out of a
      stored description. */
  function ReadDescription(d: string): Option<(CalendarDate, string)> {
    if |d| < |PublishedOpen| || d[..|PublishedOpen|] != PublishedOpen then None
    else
      var rest := d[|PublishedOpen|..];
      var date := Before(rest, '<');
      var tail := rest[|date|..];
      if |tail| < |PublishedClose| || tail[..|PublishedClose|] != PublishedClose then None
      else match ParseDate(date)
        case None => None
        case Some(cd) => Some((cd, tail[|PublishedClose|..]))
  }

  lemma {:induction false} BeforeWhole(s: string, t: string, c: char)
    requires c !in s && |t| > 0 && t[0] == c
    ensures Before(s + t, c) == s
    decreases |s|
  {
    if |s| > 0 {
      assert (s + t)[1..] == s[1..] + t;
      BeforeWhole(s[1..], t, c);
    } else {
      assert s + t == t;
    }
  }

  /** The stored description keeps both the publication date and the
      content: reading it back recovers them. */
  lemma DescribeRoundTrip(d: CalendarDate, content: Option<string>)
    ensures ReadDescription(Describe(FormatDate(d), content)) == Some((d, OrEmpty(content)))
  {
    var f := FormatDate(d);
    var c := OrEmpty(content);
    var desc := Describe(f, content);
    assert desc == PublishedOpen + (f + (PublishedClose + c));
    var rest := desc[|PublishedOpen|..];
    assert desc[..|PublishedOpen|] == PublishedOpen;
    assert rest == f + (PublishedClose + c);
    FormatHasNoBracket(d);
    BeforeWhole(f, PublishedClose + c, '<');
    var tail := rest[|f|..];
    assert tail == PublishedClose + c;
    assert tail[..|PublishedClose|] == PublishedClose && tail[|PublishedClose|..] == c;
    FormatRoundTrip(d);
  }

  // ------------------------------------------------------------- record

  /** `pubDate ? new Date(pubDate) : new Date()`. */
  function PublicationDate(item: Item, now: Stamp): Stamp {
    item.pubDate.GetOr(now)
  }

  /** The row inserted for `item`. */
  function BuildRecord(item: Item, now: Stamp): Record {
    var date := PublicationDate(item, now);
    Record(item.title, item.link, Describe(FormatDate(date.local), item.content), date, item.guid,
           CompanyName(item))
  }

  /** The row keeps the item's guid, title and link, is dated by the item
      (or by `now` when it has no date), and its description still holds
      both that date and the item's content. */
  lemma RecordFromItem(item: Item, now: Stamp)
    ensures var r := BuildRecord(item, now);
      && r.guid == item.guid && r.title == item.title && r.url == item.link
      && r.pubDate == (if item.pubDate.Some? then item.pubDate.value else now)
      && r.company == CompanyName(item)
      && ReadDescription(r.description) == Some((r.pubDate.local, OrEmpty(item.content)))
  {
    DescribeRoundTrip(PublicationDate(item, now).local, item.content);
  }

  /** The age filter skips only dated items published before the cutoff. */
  predicate TooOld(item: Item, cutoff: int) {
    item.pubDate.Some? && item.pubDate.value.instant < cutoff
  }

  /** The two item-level decisions the loop makes: whether an item is
      relevant, and the row it becomes. */
  datatype Rules = Rules(relevant: Item -> bool, build: Item -> Record)

  /** The route's decisions: `isJobRelevant`, and the row dated by the item
      or, without a date, by `now`. */
  function RouteRules(now: Stamp): Rules {
    Rules(IsJobRelevant, item => BuildRecord(item, now))
  }

  // --------------------------------------------------------------- step

  /** The item would be inserted were its guid new and the store willing. */
  predicate PassesFilters(item: Item, cutoff: int, rules: Rules) {
    !TooOld(item, cutoff) && rules.relevant(item)
  }

  /** One iteration of the item loop. `accepted` is the store's answer to
      the insert, should one be attempted. */
  function Step(store: Store, item: Item, cutoff: int, rules: Rules, accepted: bool): (r: (Store, Fate))
    ensures r.1 == SkippedOld <==> TooOld(item, cutoff)
    ensures r.1 == SkippedIrrelevant <==> !TooOld(item, cutoff) && !rules.relevant(item)
    ensures r.1 == SkippedDuplicate <==> PassesFilters(item, cutoff, rules) && item.guid in store
    ensures r.1 == InsertFailed <==> PassesFilters(item, cutoff, rules) && item.guid !in store && !accepted
    ensures r.1 == Inserted ==> item.guid !in store && r.0 == store[item.guid := rules.build(item)]
    ensures r.1 != Inserted ==> r.0 == store
    ensures Extends(store, r.0)
  {
    if TooOld(item, cutoff) then (store, SkippedOld)
    else if !rules.relevant(item) then (store, SkippedIrrelevant)
    else if item.guid in store then (store, SkippedDuplicate)
    else if !accepted then (store, InsertFailed)
    else (store[item.guid := rules.build(item)], Inserted)
  }

  // --------------------------------------------------------------- pass

  datatype PassResult = PassResult(store: Store, fates: seq<Fate>)

  /** The item loop over one feed, in order. */
  function Pass(store: Store, items: seq<Item>, cutoff: int, rules: Rules, accepted: seq<bool>): (r: PassResult)
    requires |accepted| == |items|
    ensures |r.fates| == |items|
    ensures Extends(store, r.store)
    decreases |items|
  {
    if |items| == 0 then PassResult(store, [])
    else
      var step := Step(store, items[0], cutoff, rules, accepted[0]);
      var rest := Pass(step.0, items[1..], cutoff, rules, accepted[1..]);
      PassResult(rest.store, [step.1] + rest.fates)
  }

  /** The store before item `i` is processed. */
  function StoreBefore(store: Store, items: seq<Item>, cutoff: int, rules: Rules, accepted: seq<bool>, i: nat): Store
    requires |accepted| == |items| && i <= |items|
  {
    Pass(store, items[..i], cutoff, rules, accepted[..i]).store
  }

  /** Processing `a + b` is processing `a`, then `b` from where `a` left off. */
  lemma {:induction false} PassAppend(store: Store, a: seq<Item>, b: seq<Item>, cutoff: int, rules: Rules,
                                      oka: seq<bool>, okb: seq<bool>)
    requires |oka| == |a| && |okb| == |b|
    ensures var ra := Pass(store, a, cutoff, rules, oka);
            var rb := Pass(ra.store, b, cutoff, rules, okb);
            Pass(store, a + b, cutoff, rules, oka + okb) == PassResult(rb.store, ra.fates + rb.fates)
    decreases |a|
  {
    if |a| == 0 {
      assert a + b == b && oka + okb == okb;
    } else {
      var step := Step(store, a[0], cutoff, rules, oka[0]);
      var tail := Pass(step.0, a[1..], cutoff, rules, oka[1..]);
      var rb := Pass(tail.store, b, cutoff, rules, okb);
      assert (a + b)[0] == a[0] && (oka + okb)[0] == oka[0];
      assert (a + b)[1..] == a[1..] + b && (oka + okb)[1..] == oka[1..] + okb;
      PassAppend(step.0, a[1..], b, cutoff, rules, oka[1..], okb);
      assert [step.1] + (tail.fates + rb.fates) == ([step.1] + tail.fates) + rb.fates;
    }
  }

  /** The fate of item `i` is what one step gives it against the store built from the items before it. */
  lemma PassFateAt(store: Store, items: seq<Item>, cutoff: int, rules: Rules, accepted: seq<bool>, i: nat)
    requires |accepted| == |items| && i < |items|
    ensures var before := StoreBefore(store, items, cutoff, rules, accepted, i);
            var step := Step(before, items[i], cutoff, rules, accepted[i]);
            Pass(store, items, cutoff, rules, accepted).fates[i] == step.1
            && StoreBefore(store, items, cutoff, rules, accepted, i + 1) == step.0
  {
    PassFateIs(store, items, cutoff, rules, accepted, i);
    StoreBeforeNext(store, items, cutoff, rules, accepted, i);
  }

  lemma PassFateIs(store: Store, items: seq<Item>, cutoff: int, rules: Rules, accepted: seq<bool>, i: nat)
    requires |accepted| == |items| && i < |items|
    ensures Pass(store, items, cutoff, rules, accepted).fates[i]
            == Step(StoreBefore(store, items, cutoff, rules, accepted, i), items[i], cutoff, rules, accepted[i]).1
  {
    var a, b := items[..i], items[i..];
    var oka, okb := accepted[..i], accepted[i..];
    assert items == a + b && accepted == oka + okb;
    PassAppend(store, a, b, cutoff, rules, oka, okb);
    var ra := Pass(store, a, cutoff, rules, oka);
    assert |ra.fates| == i;
    assert b[0] == items[i] && okb[0] == accepted[i];
  }

  lemma StoreBeforeNext(store: Store, items: seq<Item>, cutoff: int, rules: Rules, accepted: seq<bool>, i: nat)
    requires |accepted| == |items| && i < |items|
    ensures StoreBefore(store, items, cutoff, rules, accepted, i + 1)
            == Step(StoreBefore(store, items, cutoff, rules, accepted, i), items[i], cutoff, rules, accepted[i]).0
  {
    var a, oka := items[..i], accepted[..i];
    assert items[..i + 1] == a + [items[i]] && accepted[..i + 1] == oka + [accepted[i]];
    PassAppend(store, a, [items[i]], cutoff, rules, oka, [accepted[i]]);
  }

  /** Later stores extend earlier ones. */
  lemma StoreBeforeGrows(store: Store, items: seq<Item>, cutoff: int, rules: Rules, accepted: seq<bool>, i: nat, j: nat)
    requires |accepted| == |items| && i <= j <= |items|
    ensures Extends(store, StoreBefore(store, items, cutoff, rules, accepted, i))
    ensures Extends(StoreBefore(store, items, cutoff, rules, accepted, i),
                    StoreBefore(store, items, cutoff, rules, accepted, j))
  {
    var a, b := items[..i], items[i..j];
    assert items[..j] == a + b && accepted[..j] == accepted[..i] + accepted[i..j];
    PassAppend(store, a, b, cutoff, rules, accepted[..i], accepted[i..j]);
  }

  /** The store after the pass is the store before "item |items|". */
  lemma StoreBeforeEnd(store: Store, items: seq<Item>, cutoff: int, rules: Rules, accepted: seq<bool>)
    requires |accepted| == |items|
    ensures StoreBefore(store, items, cutoff, rules, accepted, |items|)
         == Pass(store, items, cutoff, rules, accepted).store
  {
    assert items[..|items|] == items && accepted[..|items|] == accepted;
  }

  /** An inserted item was recent enough, relevant, new to the store and
      accepted by it. */
  lemma InsertedPassedChecks(store: Store, items: seq<Item>, cutoff: int, rules: Rules, accepted: seq<bool>, i: nat)
    requires |accepted| == |items| && i < |items|
    requires Pass(store, items, cutoff, rules, accepted).fates[i] == Inserted
    ensures PassesFilters(items[i], cutoff, rules) && accepted[i]
    ensures items[i].guid !in store
  {
    PassFateAt(store, items, cutoff, rules, accepted, i);
    StoreBeforeGrows(store, items, cutoff, rules, accepted, i, i);
  }

  /** Within one pass no guid is inserted twice. */
  lemma InsertedGuidsUnique(store: Store, items: seq<Item>, cutoff: int, rules: Rules, accepted: seq<bool>, i: nat, j: nat)
    requires |accepted| == |items| && i < j < |items|
    requires Pass(store, items, cutoff, rules, accepted).fates[i] == Inserted
    requires Pass(store, items, cutoff, rules, accepted).fates[j] == Inserted
    ensures items[i].guid != items[j].guid
  {
    PassFateAt(store, items, cutoff, rules, accepted, i);
    PassFateAt(store, items, cutoff, rules, accepted, j);
    StoreBeforeGrows(store, items, cutoff, rules, accepted, i + 1, j);
    var mid := StoreBefore(store, items, cutoff, rules, accepted, i + 1);
    var late := StoreBefore(store, items, cutoff, rules, accepted, j);
    assert items[i].guid in mid;
    assert items[i].guid in late;
    assert items[j].guid !in late;
  }

  /** Item `i` was inserted by the pass `r` as the row for guid `g`. */
  ghost predicate InsertedAs(r: PassResult, items: seq<Item>, rules: Rules, g: string, i: int) {
    && 0 <= i < |items| && i < |r.fates| && r.fates[i] == Inserted && items[i].guid == g
    && g in r.store && r.store[g] == rules.build(items[i])
  }

  /** Every row a pass adds comes from an inserted item and is built from it. */
  lemma {:induction false} NewRowsFromInserts(store: Store, items: seq<Item>, cutoff: int, rules: Rules,
                                              accepted: seq<bool>, g: string)
    requires |accepted| == |items|
    requires g in Pass(store, items, cutoff, rules, accepted).store && g !in store
    ensures exists i :: InsertedAs(Pass(store, items, cutoff, rules, accepted), items, rules, g, i)
    decreases |items|
  {
    var r := Pass(store, items, cutoff, rules, accepted);
    assert |items| > 0;
    var step := Step(store, items[0], cutoff, rules, accepted[0]);
    var rest := Pass(step.0, items[1..], cutoff, rules, accepted[1..]);
    assert r.store == rest.store && r.fates == [step.1] + rest.fates;
    if g in step.0 {
      assert step.1 == Inserted;
      assert g == items[0].guid;
      assert rest.store[g] == step.0[g];
      assert InsertedAs(r, items, rules, g, 0);
    } else {
      NewRowsFromInserts(step.0, items[1..], cutoff, rules, accepted[1..], g);
      var k :| InsertedAs(rest, items[1..], rules, g, k);
      assert items[1..][k] == items[k + 1];
      assert InsertedAs(r, items, rules, g, k + 1);
    }
  }

  /** Every inserted item's row is in the store after the pass, as built. */
  lemma {:induction false} InsertedRowsKept(store: Store, items: seq<Item>, cutoff: int, rules: Rules,
                                            accepted: seq<bool>, i: nat)
    requires |accepted| == |items| && i < |items|
    requires Pass(store, items, cutoff, rules, accepted).fates[i] == Inserted
    ensures InsertedAs(Pass(store, items, cutoff, rules, accepted), items, rules, items[i].guid, i)
    decreases |items|
  {
    var r := Pass(store, items, cutoff, rules, accepted);
    var step := Step(store, items[0], cutoff, rules, accepted[0]);
    var rest := Pass(step.0, items[1..], cutoff, rules, accepted[1..]);
    assert r.store == rest.store && r.fates == [step.1] + rest.fates;
    if i == 0 {
      assert step.1 == Inserted;
      assert step.0[items[0].guid] == rules.build(items[0]);
      assert rest.store[items[0].guid] == step.0[items[0].guid];
    } else {
      assert rest.fates[i - 1] == Inserted;
      assert items[1..][i - 1] == items[i];
      InsertedRowsKept(step.0, items[1..], cutoff, rules, accepted[1..], i - 1);
    }
  }

  /** A failed insert changes nothing and the pass goes on. */
  lemma FailedInsertSkipsItem(store: Store, items: seq<Item>, cutoff: int, rules: Rules, accepted: seq<bool>, i: nat)
    requires |accepted| == |items| && i < |items|
    requires Pass(store, items, cutoff, rules, accepted).fates[i] == InsertFailed
    ensures !accepted[i]
    ensures StoreBefore(store, items, cutoff, rules, accepted, i + 1)
         == StoreBefore(store, items, cutoff, rules, accepted, i)
  {
    PassFateAt(store, items, cutoff, rules, accepted, i);
  }

  /** A pass from a store that already holds every admissible item's guid
      inserts nothing. */
  lemma {:induction false} NothingNew(store: Store, items: seq<Item>, cutoff: int, rules: Rules, accepted: seq<bool>)
    requires |accepted| == |items|
    requires forall i :: 0 <= i < |items| && PassesFilters(items[i], cutoff, rules) ==> items[i].guid in store
    ensures Pass(store, items, cutoff, rules, accepted).store == store
    ensures Inserted !in Pass(store, items, cutoff, rules, accepted).fates
    decreases |items|
  {
    if |items| > 0 {
      assert PassesFilters(items[0], cutoff, rules) ==> items[0].guid in store;
      assert forall i :: 0 <= i < |items| - 1 ==> items[1..][i] == items[i + 1];
      NothingNew(store, items[1..], cutoff, rules, accepted[1..]);
    }
  }

  /** After a pass whose inserts all succeeded, every item that passes the
      filters has its guid in the store. */
  lemma AdmissibleStored(store: Store, items: seq<Item>, cutoff: int, rules: Rules, accepted: seq<bool>)
    requires |accepted| == |items|
    requires InsertFailed !in Pass(store, items, cutoff, rules, accepted).fates
    ensures forall i :: 0 <= i < |items| && PassesFilters(items[i], cutoff, rules)
              ==> items[i].guid in Pass(store, items, cutoff, rules, accepted).store
  {
    var r := Pass(store, items, cutoff, rules, accepted);
    forall i | 0 <= i < |items| && PassesFilters(items[i], cutoff, rules)
      ensures items[i].guid in r.store
    {
      PassFateAt(store, items, cutoff, rules, accepted, i);
      assert r.fates[i] in r.fates;
      StoreBeforeGrows(store, items, cutoff, rules, accepted, i + 1, |items|);
      StoreBeforeGrows(store, items, cutoff, rules, accepted, i, i + 1);
      StoreBeforeEnd(store, items, cutoff, rules, accepted);
    }
  }

  /** Running the same items again with the same cutoff inserts nothing,
      provided every insert of the first pass succeeded. */
  lemma PassIdempotent(store: Store, items: seq<Item>, cutoff: int, cutoff2: int, rules: Rules, rules2: Rules,
                       accepted: seq<bool>, accepted2: seq<bool>)
    requires |accepted| == |items| && |accepted2| == |items|
    requires cutoff <= cutoff2
    requires rules2.relevant == rules.relevant
    requires InsertFailed !in Pass(store, items, cutoff, rules, accepted).fates
    ensures var r := Pass(store, items, cutoff, rules, accepted);
            var r2 := Pass(r.store, items, cutoff2, rules2, accepted2);
            r2.store == r.store && Inserted !in r2.fates
  {
    var r := Pass(store, items, cutoff, rules, accepted);
    AdmissibleStored(store, items, cutoff, rules, accepted);
    assert forall i :: 0 <= i < |items| && PassesFilters(items[i], cutoff2, rules2)
             ==> PassesFilters(items[i], cutoff, rules);
    NothingNew(r.store, items, cutoff2, rules2, accepted2);
  }

  /** One feed as the RSS parser hands it over: its items, or a failure
      (an unreachable URL or a malformed document), which the handler's
      `try` turns into the error response. */
  datatype FeedFetch = Fetched(items: seq<Item>) | FetchFailed

  /** The two responses of the handler: the success message, or the error
      message with status 500. */
  datatype Response = PulledOk | PullFailed

  datatype RunResult = RunResult(store: Store, fates: seq<Fate>, response: Response)

  /** Every fetched feed comes with one insert outcome per item. */
  predicate OraclesFit(feeds: seq<FeedFetch>, accepted: seq<seq<bool>>) {
    |accepted| == |feeds|
    && forall i :: 0 <= i < |feeds| && feeds[i].Fetched? ==> |accepted[i]| == |feeds[i].items|
  }

  predicate AllFetched(feeds: seq<FeedFetch>) {
    forall i :: 0 <= i < |feeds| ==> feeds[i].Fetched?
  }

  lemma OraclesFitTail(feeds: seq<FeedFetch>, accepted: seq<seq<bool>>)
    requires |feeds| > 0 && OraclesFit(feeds, accepted)
    ensures OraclesFit(feeds[1..], accepted[1..])
  {
    assert forall i :: 0 <= i < |feeds| - 1 ==> feeds[1..][i] == feeds[i + 1] && accepted[1..][i] == accepted[i + 1];
  }

  /** The handler: feeds in order, each feed's items through one pass; the
      first feed that fails to load ends the run with the error response,
      keeping every row inserted before it. */
  function Run(store: Store, feeds: seq<FeedFetch>, cutoff: int, rules: Rules, accepted: seq<seq<bool>>): (r: RunResult)
    requires OraclesFit(feeds, accepted)
    ensures r.response == PulledOk <==> AllFetched(feeds)
    ensures Extends(store, r.store)
    decreases |feeds|
  {
    if |feeds| == 0 then RunResult(store, [], PulledOk)
    else if feeds[0].FetchFailed? then RunResult(store, [], PullFailed)
    else
      OraclesFitTail(feeds, accepted);
      var p := Pass(store, feeds[0].items, cutoff, rules, accepted[0]);
      var rest := Run(p.store, feeds[1..], cutoff, rules, accepted[1..]);
      assert rest.response == PulledOk <==> AllFetched(feeds[1..]);
      assert AllFetched(feeds) <==> AllFetched(feeds[1..]) by {
        assert forall i :: 0 < i < |feeds| ==> feeds[i] == feeds[1..][i - 1];
      }
      ExtendsTransitive(store, p.store, rest.store);
      RunResult(rest.store, p.fates + rest.fates, rest.response)
  }

  /** The route itself: relevance by keywords, records built with `now` as
      the fallback publication date. */
  function PullJobs(store: Store, feeds: seq<FeedFetch>, cutoff: int, now: Stamp, accepted: seq<seq<bool>>): RunResult
    requires OraclesFit(feeds, accepted)
  {
    Run(store, feeds, cutoff, RouteRules(now), accepted)
  }

  /** All items of the fetched feeds, in feed order. */
  function FlatItems(feeds: seq<FeedFetch>): seq<Item> {
    if |feeds| == 0 then []
    else (if feeds[0].Fetched? then feeds[0].items else []) + FlatItems(feeds[1..])
  }

  function FlatAccepted(accepted: seq<seq<bool>>): seq<bool> {
    if |accepted| == 0 then [] else accepted[0] + FlatAccepted(accepted[1..])
  }

  /** When every feed loads, the run is one pass over all items in feed order:
      an item whose guid an earlier feed's item inserted is skipped as a
      duplicate once it passes the age and relevance filters. */
  lemma {:induction false} RunAllFetched(store: Store, feeds: seq<FeedFetch>, cutoff: int, rules: Rules,
                                         accepted: seq<seq<bool>>)
    requires OraclesFit(feeds, accepted) && AllFetched(feeds)
    ensures |FlatAccepted(accepted)| == |FlatItems(feeds)|
    ensures var p := Pass(store, FlatItems(feeds), cutoff, rules, FlatAccepted(accepted));
            Run(store, feeds, cutoff, rules, accepted) == RunResult(p.store, p.fates, PulledOk)
    decreases |feeds|
  {
    if |feeds| > 0 {
      OraclesFitTail(feeds, accepted);
      assert AllFetched(feeds[1..]) by {
        assert forall i :: 0 <= i < |feeds| - 1 ==> feeds[1..][i] == feeds[i + 1];
      }
      assert feeds[0].Fetched?;
      var p := Pass(store, feeds[0].items, cutoff, rules, accepted[0]);
      RunAllFetched(p.store, feeds[1..], cutoff, rules, accepted[1..]);
      PassAppend(store, feeds[0].items, FlatItems(feeds[1..]), cutoff, rules, accepted[0], FlatAccepted(accepted[1..]));
    }
  }

  /** A feed that fails to load ends the run: the rows inserted from the
      feeds before it stay, nothing after it is read, and the response is
      the error. */
  lemma {:induction false} RunStopsAtFailure(store: Store, feeds: seq<FeedFetch>, cutoff: int, rules: Rules,
                                             accepted: seq<seq<bool>>, k: nat)
    requires OraclesFit(feeds, accepted)
    requires k < |feeds| && feeds[k].FetchFailed?
    requires forall i :: 0 <= i < k ==> feeds[i].Fetched?
    ensures OraclesFit(feeds[..k], accepted[..k])
    ensures var before := Run(store, feeds[..k], cutoff, rules, accepted[..k]);
            Run(store, feeds, cutoff, rules, accepted) == RunResult(before.store, before.fates, PullFailed)
    decreases k
  {
    if k > 0 {
      OraclesFitTail(feeds, accepted);
      assert feeds[1..][k - 1] == feeds[k];
      assert forall i :: 0 <= i < k - 1 ==> feeds[1..][i] == feeds[i + 1];
      assert feeds[..k][1..] == feeds[1..][..k - 1] && accepted[..k][1..] == accepted[1..][..k - 1];
      if feeds[0].Fetched? {
        var p := Pass(store, feeds[0].items, cutoff, rules, accepted[0]);
        RunStopsAtFailure(p.store, feeds[1..], cutoff, rules, accepted[1..], k - 1);
      }
    }
  }

  /** Feeds are concatenated item by item. */
  lemma {:induction false} FlatItemsAppend(a: seq<FeedFetch>, b: seq<FeedFetch>)
    ensures FlatItems(a + b) == FlatItems(a) + FlatItems(b)
    decreases |a|
  {
    if |a| > 0 {
      assert (a + b)[0] == a[0] && (a + b)[1..] == a[1..] + b;
      FlatItemsAppend(a[1..], b);
    } else {
      assert a + b == b;
    }
  }

  /** A run that does not load every feed has a first feed that fails. */
  lemma {:induction false} FirstFailure(feeds: seq<FeedFetch>) returns (k: nat)
    requires !AllFetched(feeds)
    ensures k < |feeds| && feeds[k].FetchFailed?
    ensures forall i :: 0 <= i < k ==> feeds[i].Fetched?
    decreases |feeds|
  {
    if feeds[0].FetchFailed? {
      k := 0;
    } else {
      assert !AllFetched(feeds[1..]) by {
        var i :| 0 <= i < |feeds| && feeds[i].FetchFailed?;
        assert feeds[1..][i - 1] == feeds[i];
      }
      var k1 := FirstFailure(feeds[1..]);
      k := k1 + 1;
      assert forall i :: 1 <= i < k ==> feeds[i] == feeds[1..][i - 1];
    }
  }

  /** A run that stops at its first failed feed `k` made one pass over the
      items of the feeds before `k`, which come first among all items. */
  lemma RunBeforeFailure(store: Store, feeds: seq<FeedFetch>, cutoff: int, rules: Rules,
                         accepted: seq<seq<bool>>, k: nat)
    requires OraclesFit(feeds, accepted)
    requires k < |feeds| && feeds[k].FetchFailed?
    requires forall i :: 0 <= i < k ==> feeds[i].Fetched?
    ensures |FlatAccepted(accepted[..k])| == |FlatItems(feeds[..k])| <= |FlatItems(feeds)|
    ensures FlatItems(feeds[..k]) == FlatItems(feeds)[..|FlatItems(feeds[..k])|]
    ensures Run(store, feeds, cutoff, rules, accepted).fates
         == Pass(store, FlatItems(feeds[..k]), cutoff, rules, FlatAccepted(accepted[..k])).fates
  {
    var pre, oks := feeds[..k], accepted[..k];
    RunStopsAtFailure(store, feeds, cutoff, rules, accepted, k);
    assert AllFetched(pre);
    RunAllFetched(store, pre, cutoff, rules, oks);
    assert feeds == pre + feeds[k..];
    FlatItemsAppend(pre, feeds[k..]);
  }

  /** Within one run, across feeds too and whether or not a feed fails to
      load, a guid is inserted at most once. */
  lemma RunInsertsGuidOnce(store: Store, feeds: seq<FeedFetch>, cutoff: int, rules: Rules,
                           accepted: seq<seq<bool>>, i: nat, j: nat)
    requires OraclesFit(feeds, accepted)
    requires i < j < |Run(store, feeds, cutoff, rules, accepted).fates|
    requires Run(store, feeds, cutoff, rules, accepted).fates[i] == Inserted
    requires Run(store, feeds, cutoff, rules, accepted).fates[j] == Inserted
    ensures |Run(store, feeds, cutoff, rules, accepted).fates| <= |FlatItems(feeds)|
    ensures FlatItems(feeds)[i].guid != FlatItems(feeds)[j].guid
  {
    if AllFetched(feeds) {
      RunAllFetched(store, feeds, cutoff, rules, accepted);
      InsertedGuidsUnique(store, FlatItems(feeds), cutoff, rules, FlatAccepted(accepted), i, j);
    } else {
      var k := FirstFailure(feeds);
      RunBeforeFailure(store, feeds, cutoff, rules, accepted, k);
      var flat := FlatItems(feeds[..k]);
      assert j < |flat|;
      InsertedGuidsUnique(store, flat, cutoff, rules, FlatAccepted(accepted[..k]), i, j);
      assert flat[i] == FlatItems(feeds)[i] && flat[j] == FlatItems(feeds)[j];
    }
  }

  /** Running the route again over the same feeds, at the same or a later
      cutoff, once every admissible item of the first run was stored,
      inserts nothing and gives the same response. */
  lemma RunIdempotent(store: Store, feeds: seq<FeedFetch>, cutoff: int, cutoff2: int, rules: Rules, rules2: Rules,
                      accepted: seq<seq<bool>>, accepted2: seq<seq<bool>>)
    requires OraclesFit(feeds, accepted) && OraclesFit(feeds, accepted2)
    requires cutoff <= cutoff2
    requires rules2.relevant == rules.relevant
    requires InsertFailed !in Run(store, feeds, cutoff, rules, accepted).fates
    ensures var r := Run(store, feeds, cutoff, rules, accepted);
            var r2 := Run(r.store, feeds, cutoff2, rules2, accepted2);
            r2.store == r.store && Inserted !in r2.fates && r2.response == r.response
  {
    if AllFetched(feeds) {
      AllFetchedIdempotent(store, feeds, cutoff, cutoff2, rules, rules2, accepted, accepted2);
    } else {
      var k := FirstFailure(feeds);
      var r := Run(store, feeds, cutoff, rules, accepted);
      RunStopsAtFailure(store, feeds, cutoff, rules, accepted, k);
      RunStopsAtFailure(r.store, feeds, cutoff2, rules2, accepted2, k);
      assert OraclesFit(feeds[..k], accepted2[..k]) by {
        assert forall i :: 0 <= i < k ==> feeds[..k][i] == feeds[i] && accepted2[..k][i] == accepted2[i];
      }
      assert AllFetched(feeds[..k]);
      AllFetchedIdempotent(store, feeds[..k], cutoff, cutoff2, rules, rules2, accepted[..k], accepted2[..k]);
    }
  }

  lemma AllFetchedIdempotent(store: Store, feeds: seq<FeedFetch>, cutoff: int, cutoff2: int, rules: Rules, rules2: Rules,
                             accepted: seq<seq<bool>>, accepted2: seq<seq<bool>>)
    requires OraclesFit(feeds, accepted) && OraclesFit(feeds, accepted2) && AllFetched(feeds)
    requires cutoff <= cutoff2
    requires rules2.relevant == rules.relevant
    requires InsertFailed !in Run(store, feeds, cutoff, rules, accepted).fates
    ensures var r := Run(store, feeds, cutoff, rules, accepted);
            var r2 := Run(r.store, feeds, cutoff2, rules2, accepted2);
            r2.store == r.store && Inserted !in r2.fates && r2.response == PulledOk
  {
    var r := Run(store, feeds, cutoff, rules, accepted);
    RunAllFetched(store, feeds, cutoff, rules, accepted);
    RunAllFetched(r.store, feeds, cutoff2, rules2, accepted2);
    PassIdempotent(store, FlatItems(feeds), cutoff, cutoff2, rules, rules2, FlatAccepted(accepted), FlatAccepted(accepted2));
  }
}
