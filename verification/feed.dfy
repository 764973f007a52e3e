/** The whole feed build: the per-file promises gathered by `Promise.all`,
    the grouping, the two sorts and the feed object with one key per month
    group. */
module FeedBuilder {
  import opened Options
  import opened Strings
  import opened JsNumbers
  import opened StableSort
  import opened ReleaseDates
  import opened FeedItems
  import opened FeedGroups

  // ---------------------------------------------------------------------
  // Sort keys
  // ---------------------------------------------------------------------

  /** The numeric `order` of a category. A `NaN` order (which the buckets of
      real dates never produce) would compare as 0. */
  function OrderKey(now: Now, c: MonthCategory): int
  {
    match MonthYearOrder(now, c.monthYear)
    case NaN => 0
    case Num(v) => v
  }

  /** The comparator `(a, b) => a.order - b.order` as an ascending key. */
  function CategoryKey(now: Now): MonthCategory -> int
  {
    c => OrderKey(now, c)
  }

  /** The month "now" falls in, counted like `MonthIndex`. */
  function NowIndex(now: Now): int
  {
    now.year * 12 + now.month
  }

  /** Calendar order on dates. */
  predicate DateBefore(a: Date, b: Date)
  {
    a.year < b.year || (a.year == b.year && (a.month < b.month || (a.month == b.month && a.day < b.day)))
  }

  /** A number per day that grows with the calendar; the comparator's sign
      is all the sort looks at, so it stands in for the millisecond time
      value of `new Date(releaseDate)`. */
  function DayKey(d: Date): int
  {
    d.year * 416 + d.month * 32 + d.day
  }

  lemma DayKeyOrder(a: Date, b: Date)
    requires ValidDate(a) && ValidDate(b)
    ensures DayKey(a) < DayKey(b) <==> DateBefore(a, b)
    ensures DayKey(a) == DayKey(b) <==> a == b
  {
  }

  /** The comparator `(a, b) => new Date(b.releaseDate) - new Date(a.releaseDate)`
      as an ascending key: later dates first. */
  function VideoKey(v: Video): int
  {
    -DayKey(v.releaseDateObj)
  }

  /** `category.videos.sort(...)` for every category. */
  function SortVideos(cats: seq<MonthCategory>): (r: seq<MonthCategory>)
    ensures |r| == |cats|
    ensures forall i :: 0 <= i < |cats| ==> r[i].monthYear == cats[i].monthYear
    ensures forall i :: 0 <= i < |cats| ==> r[i].videos == SortBy(cats[i].videos, VideoKey)
  {
    seq(|cats|, i requires 0 <= i < |cats| => cats[i].(videos := SortBy(cats[i].videos, VideoKey)))
  }

  /** The categories as the feed lists them. */
  function SortedCategories(items: seq<Item>, now: Now): seq<MonthCategory>
  {
    SortVideos(SortBy(GroupByMonth(items), CategoryKey(now)))
  }

  // ---------------------------------------------------------------------
  // The feed object
  // ---------------------------------------------------------------------

  datatype Json = Text(text: string) | VideoList(videos: seq<Video>)

  /** A JSON object as its fields in insertion order (no key is integer-like,
      so this is also the order `JSON.stringify` writes them). */
  type Fields = seq<(string, Json)>

  function Header(timestamp: string): Fields
  {
    [("providerName", Text(ProviderName)), ("lastUpdated", Text(timestamp)), ("language", Text("en"))]
  }

  function FieldKeys(fields: Fields): (keys: seq<string>)
    ensures |keys| == |fields|
    ensures forall i :: 0 <= i < |fields| ==> keys[i] == fields[i].0
  {
    seq(|fields|, i requires 0 <= i < |fields| => fields[i].0)
  }

  /** `obj[key] = value`: an existing key keeps its place and gets the new
      value; a new key goes last. */
  function SetField(fields: Fields, key: string, value: Json): (r: Fields)
    ensures key in FieldKeys(fields) ==> var k := IndexOf(FieldKeys(fields), key);
      && |r| == |fields| && FieldKeys(r) == FieldKeys(fields)
      && r[k] == (key, value)
      && forall i :: 0 <= i < |r| && i != k ==> r[i] == fields[i]
    ensures key !in FieldKeys(fields) ==> r == fields + [(key, value)]
  {
    var k := IndexOf(FieldKeys(fields), key);
    if k == |fields| then fields + [(key, value)] else fields[k := (key, value)]
  }

  /** One field per category, labelled "<month name> <year>", in order. */
  function GroupFields(cats: seq<MonthCategory>): (r: Fields)
    ensures |r| == |cats|
    ensures forall i :: 0 <= i < |cats| ==> r[i] == (GroupLabel(cats[i].monthYear), VideoList(cats[i].videos))
  {
    seq(|cats|, i requires 0 <= i < |cats| => (GroupLabel(cats[i].monthYear), VideoList(cats[i].videos)))
  }

  /** The loop that stores each field in turn with `SetField`. */
  function SetFields(fields: Fields, gs: Fields): Fields
    decreases |gs|
  {
    if |gs| == 0 then fields
    else SetFields(SetField(fields, gs[0].0, gs[0].1), gs[1..])
  }

  /** The feed object written for a list of items. */
  function FeedOf(items: seq<Item>, ctx: Context): Fields
  {
    SetFields(Header(ctx.timestamp), GroupFields(SortedCategories(items, ctx.now)))
  }

  datatype BuildResult = Written(feed: Fields) | Abandoned

  /** The entries whose promise rejects: `fs.stat` fails, or a video whose
      probe or thumbnail fails. */
  predicate Fails(e: Entry)
  {
    e.kind == StatFails || (Accepted(e) && (e.duration.None? || !e.thumbnail))
  }

  /** `generateJsonFeed` with the directory listing (`None` when `readdir`
      fails) and the per-file outcomes as inputs: `Promise.all` makes one
      rejection abandon the whole build, and then nothing is written. */
  function Build(listing: Option<seq<Entry>>, ctx: Context): (r: BuildResult)
    requires listing.Some? ==> forall i :: 0 <= i < |listing.value| ==> DateModelled(listing.value[i])
    ensures r.Abandoned? <==> listing.None? || exists i :: 0 <= i < |listing.value| && Fails(listing.value[i])
  {
    match listing
    case None => Abandoned
    case Some(entries) =>
      var outs := MapAll(entries, ctx);
      if Rejected in outs then Abandoned
      else Written(FeedOf(Items(outs), ctx))
  }

  // ---------------------------------------------------------------------
  // Properties
  // ---------------------------------------------------------------------

  /** Storing fields whose keys are new and pairwise distinct appends them
      in order: none overwrites another or an earlier field. */
  lemma {:induction false} SetFieldsAppends(fields: Fields, gs: Fields)
    requires forall i :: 0 <= i < |gs| ==> gs[i].0 !in FieldKeys(fields)
    requires forall i, j :: 0 <= i < j < |gs| ==> gs[i].0 != gs[j].0
    ensures SetFields(fields, gs) == fields + gs
    decreases |gs|
  {
    if |gs| > 0 {
      SetFieldsStep(fields, gs);
      SetFieldsAppends(fields + [gs[0]], gs[1..]);
      ConcatFirst(fields, gs);
    }
  }

  /** Storing a first new field appends it; the remaining fields stay new
      and pairwise distinct. */
  lemma SetFieldsStep(fields: Fields, gs: Fields)
    requires |gs| > 0
    requires forall i :: 0 <= i < |gs| ==> gs[i].0 !in FieldKeys(fields)
    requires forall i, j :: 0 <= i < j < |gs| ==> gs[i].0 != gs[j].0
    ensures SetFields(fields, gs) == SetFields(fields + [gs[0]], gs[1..])
    ensures forall i :: 0 <= i < |gs[1..]| ==> gs[1..][i].0 !in FieldKeys(fields + [gs[0]])
    ensures forall i, j :: 0 <= i < j < |gs[1..]| ==> gs[1..][i].0 != gs[1..][j].0
  {
    assert SetField(fields, gs[0].0, gs[0].1) == fields + [gs[0]];
    FieldKeysAppend(fields, gs[0]);
  }

  lemma ConcatFirst<T>(a: seq<T>, b: seq<T>)
    requires |b| > 0
    ensures (a + [b[0]]) + b[1..] == a + b
  {
  }

  lemma FieldKeysAppend(fields: Fields, g: (string, Json))
    ensures FieldKeys(fields + [g]) == FieldKeys(fields) + [g.0]
  {
  }

  /** A coherent category's order is the distance in months from its videos'
      month back to "now". */
  lemma CoherentOrder(now: Now, c: MonthCategory, v: Video)
    requires Coherent(c) && v in c.videos
    ensures OrderKey(now, c) == NowIndex(now) - MonthIndex(v.releaseDateObj)
  {
    MonthYearOrderValue(now, v.releaseDateObj);
  }

  /** Two coherent categories with different buckets have different months. */
  lemma CoherentDistinct(c1: MonthCategory, v1: Video, c2: MonthCategory, v2: Video)
    requires Coherent(c1) && v1 in c1.videos && Coherent(c2) && v2 in c2.videos
    ensures c1.monthYear == c2.monthYear <==> MonthIndex(v1.releaseDateObj) == MonthIndex(v2.releaseDateObj)
  {
    var d1, d2 := v1.releaseDateObj, v2.releaseDateObj;
    MonthYearInjective(d1, d2);
  }

  /** Sorting a sequence keeps the set of its elements. */
  lemma SortByMembers<T>(s: seq<T>, key: T -> int)
    ensures forall x :: x in SortBy(s, key) <==> x in s
  {
    var r := SortBy(s, key);
    forall x
      ensures x in r <==> x in s
    {
      assert x in r <==> x in multiset(r);
      assert x in s <==> x in multiset(s);
    }
  }

  /** The categories sorted by `order`: each is one of the grouped ones, so
      it is coherent and holds the videos of its bucket; their keys are
      distinct and strictly increasing. */
  lemma OrderedCategories(items: seq<Item>, now: Now)
    requires forall it :: it in items ==> WellFormedItem(it)
    ensures var ordered := SortBy(GroupByMonth(items), CategoryKey(now));
      && (forall c :: c in ordered <==> c in GroupByMonth(items))
      && (forall c :: c in ordered ==> Coherent(c) && c.videos == VideosIn(items, c.monthYear))
      && StrictlySortedBy(ordered, CategoryKey(now))
  {
    var cats := GroupByMonth(items);
    var key := CategoryKey(now);
    GroupByMonthGrouped(items);
    GroupsCoherent(items);
    forall i, j | 0 <= i < j < |cats|
      ensures key(cats[i]) != key(cats[j])
    {
      assert cats[i] in cats && cats[j] in cats;
      var v1, v2 := cats[i].videos[0], cats[j].videos[0];
      CoherentOrder(now, cats[i], v1);
      CoherentOrder(now, cats[j], v2);
      CoherentDistinct(cats[i], v1, cats[j], v2);
    }
    forall c | c in cats
      ensures c.videos == VideosIn(items, c.monthYear)
    {
      var i :| 0 <= i < |cats| && cats[i] == c;
    }
    SortByStrict(cats, key);
    SortByMembers(cats, key);
  }

  lemma BucketsMembers(cats: seq<MonthCategory>)
    ensures forall k :: k in Buckets(cats) <==> exists c :: c in cats && c.monthYear == k
  {
    forall k | k in Buckets(cats)
      ensures exists c :: c in cats && c.monthYear == k
    {
      var i :| 0 <= i < |cats| && Buckets(cats)[i] == k;
      assert cats[i] in cats;
    }
    forall c | c in cats
      ensures c.monthYear in Buckets(cats)
    {
      var i :| 0 <= i < |cats| && cats[i] == c;
      assert Buckets(cats)[i] == c.monthYear;
    }
  }

  /** The listed buckets are exactly the buckets of the items. */
  lemma SortedCategoriesBuckets(items: seq<Item>, now: Now)
    requires forall it :: it in items ==> WellFormedItem(it)
    ensures forall k :: k in Buckets(SortedCategories(items, now)) <==> k in ItemBuckets(items)
  {
    var grouped := GroupByMonth(items);
    var ordered := SortBy(grouped, CategoryKey(now));
    var cats := SortedCategories(items, now);
    GroupByMonthGrouped(items);
    OrderedCategories(items, now);
    assert Buckets(cats) == Buckets(ordered);
    BucketsMembers(ordered);
    BucketsMembers(grouped);
  }

  /** Sorting the videos of a coherent category: the same videos, later
      release dates first, and videos of the same date in their old order. */
  lemma SortedGroup(c: MonthCategory)
    requires Coherent(c)
    ensures var vs := SortBy(c.videos, VideoKey);
      && Coherent(c.(videos := vs))
      && multiset(vs) == multiset(c.videos)
      && (forall a, b :: 0 <= a < b < |vs| ==> !DateBefore(vs[a].releaseDateObj, vs[b].releaseDateObj))
      && (forall k :: WithKey(vs, VideoKey, k) == WithKey(c.videos, VideoKey, k))
  {
    SortedGroupCoherent(c);
    SortedGroupOrder(c);
    forall k
      ensures WithKey(SortBy(c.videos, VideoKey), VideoKey, k) == WithKey(c.videos, VideoKey, k)
    {
      SortByStable(c.videos, VideoKey, k);
    }
  }

  lemma SortedGroupCoherent(c: MonthCategory)
    requires Coherent(c)
    ensures Coherent(c.(videos := SortBy(c.videos, VideoKey)))
  {
    SortByMembers(c.videos, VideoKey);
  }

  lemma SortedGroupOrder(c: MonthCategory)
    requires Coherent(c)
    ensures var vs := SortBy(c.videos, VideoKey);
      forall a, b :: 0 <= a < b < |vs| ==> !DateBefore(vs[a].releaseDateObj, vs[b].releaseDateObj)
  {
    var vs := SortBy(c.videos, VideoKey);
    SortByMembers(c.videos, VideoKey);
    SortedNotBefore(vs);
  }

  /** Videos with real dates sorted by key run from the latest date down. */
  lemma SortedNotBefore(vs: seq<Video>)
    requires SortedBy(vs, VideoKey)
    requires forall v :: v in vs ==> ValidDate(v.releaseDateObj)
    ensures forall a, b :: 0 <= a < b < |vs| ==> !DateBefore(vs[a].releaseDateObj, vs[b].releaseDateObj)
  {
    forall a, b | 0 <= a < b < |vs|
      ensures !DateBefore(vs[a].releaseDateObj, vs[b].releaseDateObj)
    {
      KeyOrderNotBefore(vs[a], vs[b]);
    }
  }

  /** Ascending video keys mean the later or equal date comes first. */
  lemma KeyOrderNotBefore(v: Video, w: Video)
    requires ValidDate(v.releaseDateObj) && ValidDate(w.releaseDateObj)
    requires VideoKey(v) <= VideoKey(w)
    ensures !DateBefore(v.releaseDateObj, w.releaseDateObj)
  {
    DayKeyOrder(w.releaseDateObj, v.releaseDateObj);
  }

  /** A listed group is an ordered category with its videos sorted. */
  lemma ListedGroup(items: seq<Item>, now: Now, i: nat)
    requires forall it :: it in items ==> WellFormedItem(it)
    requires i < |SortedCategories(items, now)|
    ensures var ordered := SortBy(GroupByMonth(items), CategoryKey(now));
      && i < |ordered|
      && Coherent(ordered[i])
      && ordered[i].videos == VideosIn(items, ordered[i].monthYear)
      && SortedCategories(items, now)[i] == ordered[i].(videos := SortBy(ordered[i].videos, VideoKey))
  {
    var ordered := SortBy(GroupByMonth(items), CategoryKey(now));
    OrderedCategories(items, now);
    assert ordered[i] in ordered;
  }

  /** Inside every listed group: exactly the videos of its bucket, coherent,
      later release dates first, and videos of the same date in scan order. */
  lemma SortedCategoryVideos(items: seq<Item>, now: Now)
    requires forall it :: it in items ==> WellFormedItem(it)
    ensures var cats := SortedCategories(items, now);
      forall i :: 0 <= i < |cats| ==> GroupSortedFrom(items, cats[i])
  {
    var cats := SortedCategories(items, now);
    forall i | 0 <= i < |cats|
      ensures GroupSortedFrom(items, cats[i])
    {
      SortedCategoryVideosAt(items, now, i);
    }
  }

  /** Category `c` holds, as a coherent group, exactly the videos of its
      bucket, later release dates first and same-date videos in scan order. */
  ghost predicate GroupSortedFrom(items: seq<Item>, c: MonthCategory)
  {
    && Coherent(c)
    && multiset(c.videos) == multiset(VideosIn(items, c.monthYear))
    && (forall a, b :: 0 <= a < b < |c.videos| ==>
          !DateBefore(c.videos[a].releaseDateObj, c.videos[b].releaseDateObj))
    && (forall k :: WithKey(c.videos, VideoKey, k) == WithKey(VideosIn(items, c.monthYear), VideoKey, k))
  }

  lemma SortedCategoryVideosAt(items: seq<Item>, now: Now, i: nat)
    requires forall it :: it in items ==> WellFormedItem(it)
    requires i < |SortedCategories(items, now)|
    ensures GroupSortedFrom(items, SortedCategories(items, now)[i])
  {
    ListedGroup(items, now, i);
    SortedGroup(SortBy(GroupByMonth(items), CategoryKey(now))[i]);
  }

  /** Two videos from coherent categories with keys in strictly increasing
      order: the first is from the later month. */
  lemma OrderedPair(now: Now, c1: MonthCategory, c2: MonthCategory, v: Video, w: Video)
    requires Coherent(c1) && Coherent(c2)
    requires v in c1.videos && w in c2.videos
    requires OrderKey(now, c1) < OrderKey(now, c2)
    ensures MonthIndex(v.releaseDateObj) > MonthIndex(w.releaseDateObj)
  {
    CoherentOrder(now, c1, v);
    CoherentOrder(now, c2, w);
  }

  /** Every video of an earlier group is from a later month than every video
      of a later group: the most recent month comes first and no two groups
      share a month. */
  lemma SortedCategoriesRecency(items: seq<Item>, now: Now)
    requires forall it :: it in items ==> WellFormedItem(it)
    ensures var cats := SortedCategories(items, now);
      forall i, j, v, w :: 0 <= i < j < |cats| && v in cats[i].videos && w in cats[j].videos ==>
        MonthIndex(v.releaseDateObj) > MonthIndex(w.releaseDateObj)
  {
    var cats := SortedCategories(items, now);
    forall i, j, v, w | 0 <= i < j < |cats| && v in cats[i].videos && w in cats[j].videos
      ensures MonthIndex(v.releaseDateObj) > MonthIndex(w.releaseDateObj)
    {
      RecencyPair(items, now, i, j, v, w);
    }
  }

  lemma RecencyPair(items: seq<Item>, now: Now, i: nat, j: nat, v: Video, w: Video)
    requires forall it :: it in items ==> WellFormedItem(it)
    requires i < j < |SortedCategories(items, now)|
    requires v in SortedCategories(items, now)[i].videos && w in SortedCategories(items, now)[j].videos
    ensures MonthIndex(v.releaseDateObj) > MonthIndex(w.releaseDateObj)
  {
    var ordered := SortBy(GroupByMonth(items), CategoryKey(now));
    OrderedCategories(items, now);
    ListedGroup(items, now, i);
    ListedGroup(items, now, j);
    SortByMembers(ordered[i].videos, VideoKey);
    SortByMembers(ordered[j].videos, VideoKey);
    OrderedPair(now, ordered[i], ordered[j], v, w);
  }

  /** The clock only shifts every `order` by the same amount, so the feed's
      groups and their order do not depend on when the build runs. */
  lemma SortedCategoriesIgnoreNow(items: seq<Item>, now1: Now, now2: Now)
    requires forall it :: it in items ==> WellFormedItem(it)
    ensures SortedCategories(items, now1) == SortedCategories(items, now2)
  {
    var grouped := GroupByMonth(items);
    GroupsCoherent(items);
    var d := NowIndex(now1) - NowIndex(now2);
    forall i | 0 <= i < |grouped|
      ensures CategoryKey(now1)(grouped[i]) == CategoryKey(now2)(grouped[i]) + d
    {
      assert grouped[i] in grouped;
      var v := grouped[i].videos[0];
      CoherentOrder(now1, grouped[i], v);
      CoherentOrder(now2, grouped[i], v);
    }
    SortByShift(grouped, CategoryKey(now1), CategoryKey(now2), d);
  }

  /** Labels hold a space, so none of them is a header key. */
  lemma LabelNotHeaderKey(monthYear: string, timestamp: string)
    ensures GroupLabel(monthYear) !in FieldKeys(Header(timestamp))
  {
    var caption := GroupLabel(monthYear);
    var name := if ParseIso(monthYear + "-01").Some? then MonthNames[ParseIso(monthYear + "-01").value.month - 1] else "Invalid Date";
    assert caption[|name|] == ' ';
    assert ' ' !in "providerName" && ' ' !in "lastUpdated" && ' ' !in "language";
  }

  /** The bucket `monthYear` is the month of the real date `d`, and its
      label names that month and year. */
  predicate LabelledAs(monthYear: string, d: Date)
  {
    && ValidDate(d) && monthYear == MonthYear(d)
    && GroupLabel(monthYear) == MonthNames[d.month - 1] + " " + NatToString(d.year)
  }

  /** Each listed group is labelled "<month name> <year>" of its bucket,
      and no two groups share a label. */
  lemma SortedCategoriesLabels(items: seq<Item>, now: Now)
    requires forall it :: it in items ==> WellFormedItem(it)
    ensures var cats := SortedCategories(items, now);
      && (forall i :: 0 <= i < |cats| ==>
            |cats[i].videos| > 0 && LabelledAs(cats[i].monthYear, cats[i].videos[0].releaseDateObj))
      && (forall i, j :: 0 <= i < j < |cats| ==> GroupLabel(cats[i].monthYear) != GroupLabel(cats[j].monthYear))
  {
    var cats := SortedCategories(items, now);
    forall i | 0 <= i < |cats|
      ensures |cats[i].videos| > 0 && LabelledAs(cats[i].monthYear, cats[i].videos[0].releaseDateObj)
    {
      LabelOfGroup(items, now, i);
    }
    forall i, j | 0 <= i < j < |cats|
      ensures GroupLabel(cats[i].monthYear) != GroupLabel(cats[j].monthYear)
    {
      LabelPair(items, now, i, j);
    }
  }

  lemma LabelOfGroup(items: seq<Item>, now: Now, i: nat)
    requires forall it :: it in items ==> WellFormedItem(it)
    requires i < |SortedCategories(items, now)|
    ensures var c := SortedCategories(items, now)[i];
      |c.videos| > 0 && LabelledAs(c.monthYear, c.videos[0].releaseDateObj)
  {
    FirstVideo(items, now, i);
    GroupLabelOfMonthYear(SortedCategories(items, now)[i].videos[0].releaseDateObj);
  }

  /** The first video of a listed group has a real date in the group's bucket. */
  lemma FirstVideo(items: seq<Item>, now: Now, i: nat)
    requires forall it :: it in items ==> WellFormedItem(it)
    requires i < |SortedCategories(items, now)|
    ensures var c := SortedCategories(items, now)[i];
      && |c.videos| > 0
      && ValidDate(c.videos[0].releaseDateObj)
      && c.monthYear == MonthYear(c.videos[0].releaseDateObj)
  {
    SortedCategoryVideosAt(items, now, i);
    var c := SortedCategories(items, now)[i];
    assert c.videos[0] in c.videos;
  }

  lemma LabelPair(items: seq<Item>, now: Now, i: nat, j: nat)
    requires forall it :: it in items ==> WellFormedItem(it)
    requires i < j < |SortedCategories(items, now)|
    ensures GroupLabel(SortedCategories(items, now)[i].monthYear) != GroupLabel(SortedCategories(items, now)[j].monthYear)
  {
    var cats := SortedCategories(items, now);
    FirstVideo(items, now, i);
    FirstVideo(items, now, j);
    var v, w := cats[i].videos[0], cats[j].videos[0];
    RecencyPair(items, now, i, j, v, w);
    LabelsOfDistinctMonths(v.releaseDateObj, w.releaseDateObj);
  }

  lemma LabelsOfDistinctMonths(d1: Date, d2: Date)
    requires ValidDate(d1) && ValidDate(d2)
    requires MonthIndex(d1) != MonthIndex(d2)
    ensures GroupLabel(MonthYear(d1)) != GroupLabel(MonthYear(d2))
  {
    MonthYearInjective(d1, d2);
    if GroupLabel(MonthYear(d1)) == GroupLabel(MonthYear(d2)) {
      GroupLabelInjective(d1, d2);
    }
  }

  /** The feed object: the three header fields, then one field per listed
      group, in the order of `SortedCategories`. */
  lemma FeedShape(items: seq<Item>, ctx: Context)
    requires forall it :: it in items ==> WellFormedItem(it)
    ensures FeedOf(items, ctx) == Header(ctx.timestamp) + GroupFields(SortedCategories(items, ctx.now))
  {
    var cats := SortedCategories(items, ctx.now);
    var gs := GroupFields(cats);
    SortedCategoriesLabels(items, ctx.now);
    forall i | 0 <= i < |gs|
      ensures gs[i].0 !in FieldKeys(Header(ctx.timestamp))
    {
      LabelNotHeaderKey(cats[i].monthYear, ctx.timestamp);
    }
    SetFieldsAppends(Header(ctx.timestamp), gs);
  }

  /** When the build succeeds it writes the feed of the listing's items, and
      those carry pairwise distinct ids. */
  lemma BuildWritten(entries: seq<Entry>, ctx: Context)
    requires forall i :: 0 <= i < |entries| ==> DateModelled(entries[i])
    requires forall i :: 0 <= i < |entries| ==> !Fails(entries[i])
    ensures var items := Items(MapAll(entries, ctx));
      && Build(Some(entries), ctx) == Written(FeedOf(items, ctx))
      && (forall it :: it in items ==> WellFormedItem(it))
      && (forall a, b :: 0 <= a < b < |items| ==> items[a].video.id != items[b].video.id)
  {
    ItemsDistinctIds(entries, ctx);
  }
}
