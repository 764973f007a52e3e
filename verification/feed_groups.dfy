/** The grouping pass of the feed builder: the items are scanned in order
    and each goes to the month category of its bucket, created the first
    time the bucket is seen. */
module FeedGroups {
  import opened Strings
  import opened ReleaseDates
  import opened FeedItems

  /** One element of `monthCategories`. Its `order` field is not stored: it
      is a function of the bucket and the clock (see `FeedBuilder.OrderKey`). */
  datatype MonthCategory = MonthCategory(monthYear: string, videos: seq<Video>)

  /** The bucket of each category, in order. */
  function Buckets(cats: seq<MonthCategory>): (keys: seq<string>)
    ensures |keys| == |cats|
    ensures forall i :: 0 <= i < |cats| ==> keys[i] == cats[i].monthYear
  {
    seq(|cats|, i requires 0 <= i < |cats| => cats[i].monthYear)
  }

  /** The bucket of each item, in order: the keys `AddItem` looks up. */
  function ItemBuckets(items: seq<Item>): (keys: seq<string>)
    ensures |keys| == |items|
    ensures forall i :: 0 <= i < |items| ==> keys[i] == items[i].monthYear
  {
    seq(|items|, i requires 0 <= i < |items| => items[i].monthYear)
  }

  /** One turn of the `forEach`: `find` the category of the item's bucket
      and push the video onto it, or push a new category. */
  function AddItem(cats: seq<MonthCategory>, it: Item): seq<MonthCategory>
  {
    var k := IndexOf(Buckets(cats), it.monthYear);
    if k == |cats| then cats + [MonthCategory(it.monthYear, [it.video])]
    else cats[k := cats[k].(videos := cats[k].videos + [it.video])]
  }

  /** The categories after scanning all of `items`. */
  function GroupByMonth(items: seq<Item>): seq<MonthCategory>
    decreases |items|
  {
    if |items| == 0 then []
    else AddItem(GroupByMonth(items[..|items| - 1]), items[|items| - 1])
  }

  /** Reference definition: the videos of the items in bucket `key`, in
      scan order. */
  function VideosIn(items: seq<Item>, key: string): seq<Video>
    decreases |items|
  {
    if |items| == 0 then []
    else (if items[0].monthYear == key then [items[0].video] else []) + VideosIn(items[1..], key)
  }

  /** What the grouping achieves, stated without the scan: the buckets are
      pairwise distinct; there is a category for a bucket exactly when some
      item has that bucket; each category holds exactly the videos of its
      bucket in scan order; and categories appear in the order their buckets
      are first seen. */
  ghost predicate Grouped(items: seq<Item>, cats: seq<MonthCategory>)
  {
    && (forall i, j :: 0 <= i < j < |cats| ==> cats[i].monthYear != cats[j].monthYear)
    && (forall k :: k in Buckets(cats) <==> k in ItemBuckets(items))
    && (forall i :: 0 <= i < |cats| ==> cats[i].videos == VideosIn(items, cats[i].monthYear))
    && (forall i, j :: 0 <= i < j < |cats| ==>
          IndexOf(ItemBuckets(items), cats[i].monthYear) < IndexOf(ItemBuckets(items), cats[j].monthYear))
  }

  lemma {:induction false} VideosInAppend(items: seq<Item>, it: Item, key: string)
    ensures VideosIn(items + [it], key)
            == VideosIn(items, key) + (if it.monthYear == key then [it.video] else [])
    decreases |items|
  {
    if |items| > 0 {
      assert (items + [it])[1..] == items[1..] + [it];
      VideosInAppend(items[1..], it, key);
    }
  }

  lemma {:induction false} VideosInAbsent(items: seq<Item>, key: string)
    requires key !in ItemBuckets(items)
    ensures VideosIn(items, key) == []
    decreases |items|
  {
    if |items| > 0 {
      assert ItemBuckets(items)[0] == items[0].monthYear;
      assert ItemBuckets(items[1..]) == ItemBuckets(items)[1..];
      VideosInAbsent(items[1..], key);
    }
  }

  lemma IndexOfAppend(s: seq<string>, x: string, k: string)
    ensures k in s ==> IndexOf(s + [x], k) == IndexOf(s, k) < |s|
    ensures k !in s && k == x ==> IndexOf(s + [x], k) == |s|
  {
    var t := s + [x];
    var a, b := IndexOf(s, k), IndexOf(t, k);
    if k in s {
      assert a < |s|;
      assert t[a] == k;
    } else if k == x {
      assert t[|s|] == k;
      assert forall i :: 0 <= i < |s| ==> t[i] == s[i];
    }
  }

  /** The scan achieves `Grouped`. */
  lemma {:induction false} GroupByMonthGrouped(items: seq<Item>)
    ensures Grouped(items, GroupByMonth(items))
    decreases |items|
  {
    if |items| > 0 {
      var init, it := items[..|items| - 1], items[|items| - 1];
      assert items == init + [it];
      GroupByMonthGrouped(init);
      AddItemGrouped(init, it, GroupByMonth(init));
    }
  }

  lemma AddItemGrouped(items: seq<Item>, it: Item, cats: seq<MonthCategory>)
    requires Grouped(items, cats)
    ensures Grouped(items + [it], AddItem(cats, it))
  {
    var k := IndexOf(Buckets(cats), it.monthYear);
    if k == |cats| {
      AddNewGrouped(items, it, cats);
    } else {
      assert Buckets(cats)[k] == it.monthYear;
      AddExistingGrouped(items, it, cats, k);
    }
  }

  lemma ItemBucketsAppend(items: seq<Item>, it: Item)
    ensures ItemBuckets(items + [it]) == ItemBuckets(items) + [it.monthYear]
  {
  }

  lemma BucketAt(cats: seq<MonthCategory>, i: nat)
    requires i < |cats|
    ensures cats[i].monthYear in Buckets(cats)
  {
    assert Buckets(cats)[i] == cats[i].monthYear;
  }

  /** The bucket order survives an append for every bucket already seen. */
  lemma OrderKept(items: seq<Item>, it: Item, cats: seq<MonthCategory>, cats': seq<MonthCategory>)
    requires Grouped(items, cats)
    requires |cats'| >= |cats|
    requires forall i :: 0 <= i < |cats| ==> cats'[i].monthYear == cats[i].monthYear
    ensures forall i, j :: 0 <= i < j < |cats| ==>
              IndexOf(ItemBuckets(items + [it]), cats'[i].monthYear) < IndexOf(ItemBuckets(items + [it]), cats'[j].monthYear)
    ensures forall i :: 0 <= i < |cats| ==> IndexOf(ItemBuckets(items + [it]), cats'[i].monthYear) < |items|
  {
    var keys := ItemBuckets(items);
    ItemBucketsAppend(items, it);
    forall i | 0 <= i < |cats|
      ensures IndexOf(keys + [it.monthYear], cats[i].monthYear) == IndexOf(keys, cats[i].monthYear) < |keys|
    {
      BucketAt(cats, i);
      IndexOfAppend(keys, it.monthYear, cats[i].monthYear);
    }
  }

  /** A bucket seen for the first time opens a category at the end. */
  lemma AddNewGrouped(items: seq<Item>, it: Item, cats: seq<MonthCategory>)
    requires Grouped(items, cats)
    requires it.monthYear !in Buckets(cats)
    ensures Grouped(items + [it], cats + [MonthCategory(it.monthYear, [it.video])])
  {
    var m := it.monthYear;
    var cats' := cats + [MonthCategory(m, [it.video])];
    var keys := ItemBuckets(items);
    ItemBucketsAppend(items, it);
    assert Buckets(cats') == Buckets(cats) + [m];
    assert m !in keys;
    forall i | 0 <= i < |cats|
      ensures cats[i].monthYear != m
    {
      BucketAt(cats, i);
    }
    AddNewVideos(items, it, cats);
    OrderKept(items, it, cats, cats');
    IndexOfAppend(keys, m, m);
  }

  lemma AddNewVideos(items: seq<Item>, it: Item, cats: seq<MonthCategory>)
    requires Grouped(items, cats)
    requires it.monthYear !in ItemBuckets(items)
    requires forall i :: 0 <= i < |cats| ==> cats[i].monthYear != it.monthYear
    ensures forall i :: 0 <= i < |cats| ==> cats[i].videos == VideosIn(items + [it], cats[i].monthYear)
    ensures VideosIn(items + [it], it.monthYear) == [it.video]
  {
    forall i | 0 <= i < |cats|
      ensures cats[i].videos == VideosIn(items + [it], cats[i].monthYear)
    {
      VideosInAppend(items, it, cats[i].monthYear);
    }
    VideosInAppend(items, it, it.monthYear);
    VideosInAbsent(items, it.monthYear);
  }

  /** A bucket seen before gets the video at the end of its category. */
  lemma AddExistingGrouped(items: seq<Item>, it: Item, cats: seq<MonthCategory>, k: nat)
    requires Grouped(items, cats)
    requires k < |cats| && cats[k].monthYear == it.monthYear
    ensures Grouped(items + [it], cats[k := cats[k].(videos := cats[k].videos + [it.video])])
  {
    var cats' := cats[k := cats[k].(videos := cats[k].videos + [it.video])];
    var keys := ItemBuckets(items);
    ItemBucketsAppend(items, it);
    assert Buckets(cats') == Buckets(cats);
    BucketAt(cats, k);
    assert it.monthYear in keys;
    forall key
      ensures key in keys + [it.monthYear] <==> key in keys
    {
    }
    AddExistingVideos(items, it, cats, k);
    OrderKept(items, it, cats, cats');
  }

  lemma AddExistingVideos(items: seq<Item>, it: Item, cats: seq<MonthCategory>, k: nat)
    requires Grouped(items, cats)
    requires k < |cats| && cats[k].monthYear == it.monthYear
    ensures forall i :: 0 <= i < |cats| && i != k ==> cats[i].videos == VideosIn(items + [it], cats[i].monthYear)
    ensures cats[k].videos + [it.video] == VideosIn(items + [it], it.monthYear)
  {
    forall i | 0 <= i < |cats|
      ensures VideosIn(items + [it], cats[i].monthYear)
              == cats[i].videos + (if i == k then [it.video] else [])
    {
      VideosInAppend(items, it, cats[i].monthYear);
    }
  }

  /** Every video of the bucket `key` comes from an item of that bucket. */
  lemma {:induction false} VideosInMembers(items: seq<Item>, key: string)
    ensures forall v :: v in VideosIn(items, key) ==>
              exists it :: it in items && it.video == v && it.monthYear == key
    decreases |items|
  {
    if |items| > 0 {
      VideosInMembers(items[1..], key);
    }
  }

  /** A category whose videos all have real release dates in its bucket. */
  ghost predicate Coherent(c: MonthCategory)
  {
    && |c.videos| > 0
    && forall v :: v in c.videos ==> ValidDate(v.releaseDateObj) && MonthYear(v.releaseDateObj) == c.monthYear
  }

  /** Grouping well-formed items gives coherent categories. */
  lemma GroupsCoherent(items: seq<Item>)
    requires forall it :: it in items ==> WellFormedItem(it)
    ensures forall c :: c in GroupByMonth(items) ==> Coherent(c)
  {
    var cats := GroupByMonth(items);
    GroupByMonthGrouped(items);
    forall c | c in cats
      ensures Coherent(c)
    {
      var i :| 0 <= i < |cats| && cats[i] == c;
      VideosInMembers(items, c.monthYear);
      assert Buckets(cats)[i] == c.monthYear;
      assert c.monthYear in ItemBuckets(items);
      var j :| 0 <= j < |items| && ItemBuckets(items)[j] == c.monthYear;
      VideosInNonEmpty(items, j);
    }
  }

  lemma {:induction false} VideosInNonEmpty(items: seq<Item>, j: nat)
    requires j < |items|
    ensures |VideosIn(items, items[j].monthYear)| > 0
    decreases |items|
  {
    if j > 0 && items[0].monthYear != items[j].monthYear {
      VideosInNonEmpty(items[1..], j - 1);
    }
  }
}
