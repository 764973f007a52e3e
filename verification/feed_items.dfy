/** The per-file step of the feed builder: which directory entries become
    feed items, and the item built from each (title, release date, month
    bucket, id, URLs, video type). The results of `fs.stat`, `ffprobe` and
    thumbnail generation are inputs of the model. */
module FeedItems {
  import opened Options
  import opened Strings
  import opened JsNumbers
  import Paths
  import opened ReleaseDates

  const ProviderName: string := "Manteno Church Of The Nazarene"

  /** What `fs.stat` says about a directory entry. */
  datatype EntryKind = RegularFile | OtherEntry | StatFails

  /** A directory entry with the outcomes of the external steps run on it:
      the probed duration in whole seconds (`None` when `ffprobe` fails) and
      whether the thumbnail exists or was generated. */
  datatype Entry = Entry(name: string, kind: EntryKind, duration: Option<nat>, thumbnail: bool)

  /** The video record of the feed. */
  datatype Video = Video(
    id: string,
    title: string,
    shortDescription: string,
    thumbnail: string,
    releaseDate: string,
    releaseDateObj: Date,
    genres: seq<string>,
    duration: nat,
    url: string,
    quality: string,
    videoType: string,
    dateAdded: string)

  /** A video together with its month bucket. */
  datatype Item = Item(monthYear: string, video: Video)

  /** The value of one per-file promise: `null`, an item, or a rejection. */
  datatype Outcome = Skipped | Mapped(item: Item) | Rejected

  /** The environment of one build: the server URL from the environment and
      the clock. */
  datatype Context = Context(baseUrl: string, now: Now, timestamp: string)

  /** The extension filter, applied case-sensitively to the name. Joining
      the name under `./Videos` does not change which suffix it has. */
  predicate IsFeedVideo(name: string)
  {
    EndsWith(name, ".mp4") || EndsWith(name, ".mkv")
  }

  /** Entries that pass the `isFile()` test and the extension filter. */
  predicate Accepted(e: Entry)
  {
    e.kind == RegularFile && IsFeedVideo(e.name)
  }

  // ---------------------------------------------------------------------
  // Titles
  // ---------------------------------------------------------------------

  function NormalizeChar(c: char): char
  {
    if c == '|' || c == '\U{FF5C}' then ' '
    else if c == '\U{FF1A}' then ':'
    else c
  }

  /** `.replace(/[|｜]/g, ' ').replace(/[：]/g, ':')`. */
  function NormalizeTitle(s: string): (t: string)
    ensures |t| == |s|
    ensures forall i :: 0 <= i < |s| ==> t[i] == NormalizeChar(s[i])
    decreases |s|
  {
    if |s| == 0 then "" else [NormalizeChar(s[0])] + NormalizeTitle(s[1..])
  }

  /** A normalised title holds no ASCII bar, fullwidth bar or fullwidth
      colon, and every other character is kept where it was. */
  lemma NormalizeTitleClean(s: string)
    ensures '|' !in NormalizeTitle(s) && '\U{FF5C}' !in NormalizeTitle(s) && '\U{FF1A}' !in NormalizeTitle(s)
    ensures forall i :: 0 <= i < |s| && s[i] != '|' && s[i] != '\U{FF5C}' && s[i] != '\U{FF1A}'
              ==> NormalizeTitle(s)[i] == s[i]
  {
    var t := NormalizeTitle(s);
    forall i | 0 <= i < |t|
      ensures t[i] != '|' && t[i] != '\U{FF5C}' && t[i] != '\U{FF1A}'
    {
      assert t[i] == NormalizeChar(s[i]);
    }
  }

  /** Normalising twice is normalising once. */
  lemma NormalizeTitleIdempotent(s: string)
    ensures NormalizeTitle(NormalizeTitle(s)) == NormalizeTitle(s)
  {
    var t := NormalizeTitle(s);
    NormalizeTitleClean(s);
    assert forall i :: 0 <= i < |t| ==> NormalizeTitle(t)[i] == t[i];
  }

  /** The title of the file `name`: its stem, normalised. */
  function TitleOf(name: string): string
  {
    NormalizeTitle(Paths.Stem(name))
  }

  /** The `Events`/`Sermons` category chosen from a title. The program
      computes it and never stores it in the item. */
  function CategoryOf(title: string): (c: string)
    ensures c == "Events" || c == "Sermons"
    ensures c == "Events" <==> exists i: nat :: OccursAt(title, i, "Event")
  {
    ContainsOccurs(title, "Event");
    if Contains(title, "Event") then "Events" else "Sermons"
  }

  /** The category is the same whether it is chosen from the raw stem or
      from the normalised title: normalisation never creates or destroys
      the letters of "Event". */
  lemma CategoryIgnoresNormalization(s: string)
    ensures CategoryOf(NormalizeTitle(s)) == CategoryOf(s)
  {
    var t := NormalizeTitle(s);
    forall i | 0 <= i <= |s|
      ensures StartsWith(t[i..], "Event") <==> StartsWith(s[i..], "Event")
    {
      if i + 5 <= |s| {
        forall k | 0 <= k < 5
          ensures t[i + k] == "Event"[k] <==> s[i + k] == "Event"[k]
        {
        }
        assert t[i..][..5] == t[i..i + 5];
        assert s[i..][..5] == s[i..i + 5];
        if StartsWith(s[i..], "Event") {
          assert forall k :: 0 <= k < 5 ==> s[i + k] == "Event"[k];
          assert t[i..i + 5] == "Event";
        }
        if StartsWith(t[i..], "Event") {
          assert forall k :: 0 <= k < 5 ==> t[i + k] == "Event"[k];
          assert s[i..i + 5] == "Event";
        }
      }
    }
    if Contains(s, "Event") {
      var i :| 0 <= i <= |s| && StartsWith(s[i..], "Event");
      assert StartsWith(t[i..], "Event");
    }
    if Contains(t, "Event") {
      var i :| 0 <= i <= |t| && StartsWith(t[i..], "Event");
      assert StartsWith(s[i..], "Event");
    }
  }

  // ---------------------------------------------------------------------
  // Video type
  // ---------------------------------------------------------------------

  function AsciiUpperChar(c: char): char
  {
    if 'a' <= c <= 'z' then (c as int - 32) as char else c
  }

  /** `toUpperCase` on ASCII text; the extensions that reach it are ASCII. */
  function AsciiUpper(s: string): (t: string)
    ensures |t| == |s|
    ensures forall i :: 0 <= i < |s| ==> t[i] == AsciiUpperChar(s[i])
    decreases |s|
  {
    if |s| == 0 then "" else [AsciiUpperChar(s[0])] + AsciiUpper(s[1..])
  }

  /** `path.extname(file).slice(1).toUpperCase()`. */
  function VideoType(name: string): (t: string)
    ensures EndsWith(name, ".mp4") ==> t == (if name == ".mp4" then "" else "MP4")
    ensures EndsWith(name, ".mkv") ==> t == (if name == ".mkv" then "" else "MKV")
  {
    var e := Paths.Ext(name);
    ExtOfSuffix(name, ".mp4");
    ExtOfSuffix(name, ".mkv");
    if |e| == 0 then "" else AsciiUpper(e[1..])
  }

  /** A name ending in a dotted suffix without further dots has that suffix
      as its extension unless the name is the suffix alone. */
  lemma ExtOfSuffix(name: string, suffix: string)
    requires |suffix| >= 2 && suffix[0] == '.' && '.' !in suffix[1..]
    ensures EndsWith(name, suffix) && name != suffix ==> Paths.Ext(name) == suffix
    ensures name == suffix ==> Paths.Ext(name) == ""
  {
    var d := Paths.LastDotIndex(name);
    if EndsWith(name, suffix) {
      var p := |name| - |suffix|;
      assert name[p] == '.';
      forall j | p < j < |name|
        ensures name[j] != '.'
      {
        assert name[j] == suffix[1..][j - p - 1];
      }
      assert d == p;
      if name != suffix {
        assert p > 0;
        assert name != "..";
      }
    }
  }

  // ---------------------------------------------------------------------
  // The item of one entry
  // ---------------------------------------------------------------------

  /** Entries whose date this model describes (see `ModelledTitle`). */
  predicate DateModelled(e: Entry)
  {
    Accepted(e) ==> ModelledTitle(TitleOf(e.name))
  }

  /** The facts every item carries: a real release date, its ISO text and
      its month bucket agree. */
  predicate WellFormedItem(it: Item)
  {
    && ValidDate(it.video.releaseDateObj)
    && ParseIso(it.video.releaseDate) == Some(it.video.releaseDateObj)
    && it.monthYear == MonthYear(it.video.releaseDateObj)
  }

  /** The identifier of the entry at `index` in the directory listing. */
  function VideoId(index: nat): string
  {
    "video" + NatToString(index)
  }

  /** Distinct listing positions give distinct identifiers. */
  lemma VideoIdInjective(i: nat, j: nat)
    ensures VideoId(i) == VideoId(j) <==> i == j
  {
    if VideoId(i) == VideoId(j) {
      assert NatToString(i) == VideoId(i)[5..];
      assert NatToString(j) == VideoId(j)[5..];
      NatToStringInjective(i, j);
    }
  }

  /** The async callback run on the entry at `index` of the listing. */
  function MapEntry(e: Entry, index: nat, ctx: Context): (r: Outcome)
    requires DateModelled(e)
    ensures r == Rejected <==> e.kind == StatFails || (Accepted(e) && (e.duration.None? || !e.thumbnail))
    ensures r == Skipped <==> e.kind != StatFails && !Accepted(e)
    ensures r.Mapped? ==> WellFormedItem(r.item)
    ensures r.Mapped? ==> r.item.video.id == VideoId(index) && r.item.video.title == TitleOf(e.name)
    ensures r.Mapped? ==> r.item.video.releaseDateObj == ReleaseDate(TitleOf(e.name))
    ensures r.Mapped? && FindDate(TitleOf(e.name)).None? ==> r.item.video.releaseDate == "2024-01-01"
  {
    match e.kind
    case StatFails => Rejected
    case OtherEntry => Skipped
    case RegularFile =>
      if !IsFeedVideo(e.name) then Skipped
      else if e.duration.None? then Rejected
      else
        var title := TitleOf(e.name);
        var releaseDate := ExtractReleaseDate(title);
        var date := ReleaseDate(title);
        if !e.thumbnail then Rejected
        else
          Mapped(Item(MonthYear(date), Video(
            id := VideoId(index),
            title := title,
            shortDescription := ProviderName + " " + title + ".",
            thumbnail := ctx.baseUrl + "/output/thumbnails/" + title + ".jpg",
            releaseDate := releaseDate,
            releaseDateObj := date,
            genres := ["Religious"],
            duration := e.duration.value,
            url := ctx.baseUrl + "/stream/" + e.name,
            quality := "FHD",
            videoType := VideoType(e.name),
            dateAdded := ctx.timestamp)))
  }

  /** The per-file outcomes of a listing, each with its position in it. */
  function MapAll(entries: seq<Entry>, ctx: Context): (outs: seq<Outcome>)
    requires forall i :: 0 <= i < |entries| ==> DateModelled(entries[i])
    ensures |outs| == |entries|
    ensures forall i :: 0 <= i < |entries| ==> outs[i] == MapEntry(entries[i], i, ctx)
  {
    seq(|entries|, i requires 0 <= i < |entries| => MapEntry(entries[i], i, ctx))
  }

  /** `movies.filter(Boolean)`: the items, in listing order. */
  function Items(outs: seq<Outcome>): (items: seq<Item>)
    ensures |items| <= |outs|
    decreases |outs|
  {
    if |outs| == 0 then []
    else (if outs[0].Mapped? then [outs[0].item] else []) + Items(outs[1..])
  }

  /** An item of the filtered list comes from some outcome, and every mapped
      outcome contributes its item. */
  lemma {:induction false} ItemsMembers(outs: seq<Outcome>)
    ensures forall it :: it in Items(outs) <==> Mapped(it) in outs
    decreases |outs|
  {
    if |outs| > 0 {
      ItemsMembers(outs[1..]);
      assert outs == [outs[0]] + outs[1..];
    }
  }

  /** The ids of the items of one listing are pairwise distinct, and every
      item is well formed. */
  lemma ItemsDistinctIds(entries: seq<Entry>, ctx: Context)
    requires forall i :: 0 <= i < |entries| ==> DateModelled(entries[i])
    ensures forall it :: it in Items(MapAll(entries, ctx)) ==> WellFormedItem(it)
    ensures forall a, b :: 0 <= a < b < |Items(MapAll(entries, ctx))| ==>
              Items(MapAll(entries, ctx))[a].video.id != Items(MapAll(entries, ctx))[b].video.id
  {
    ItemsWellFormed(entries, ctx);
    ItemsDistinct(entries, ctx);
  }

  lemma ItemsWellFormed(entries: seq<Entry>, ctx: Context)
    requires forall i :: 0 <= i < |entries| ==> DateModelled(entries[i])
    ensures forall it :: it in Items(MapAll(entries, ctx)) ==> WellFormedItem(it)
  {
    var outs := MapAll(entries, ctx);
    ItemsMembers(outs);
    forall it | it in Items(outs)
      ensures WellFormedItem(it)
    {
      var i :| 0 <= i < |outs| && outs[i] == Mapped(it);
      assert outs[i] == MapEntry(entries[i], i, ctx);
    }
  }

  lemma ItemsDistinct(entries: seq<Entry>, ctx: Context)
    requires forall i :: 0 <= i < |entries| ==> DateModelled(entries[i])
    ensures forall a, b :: 0 <= a < b < |Items(MapAll(entries, ctx))| ==>
              Items(MapAll(entries, ctx))[a].video.id != Items(MapAll(entries, ctx))[b].video.id
  {
    MapAllIds(entries, ctx);
    DistinctIds(MapAll(entries, ctx));
  }

  /** When every mapped outcome carries the id of its position, the items
      have pairwise distinct ids. */
  lemma DistinctIds(outs: seq<Outcome>)
    requires forall i :: 0 <= i < |outs| && outs[i].Mapped? ==> outs[i].item.video.id == VideoId(i)
    ensures forall a, b :: 0 <= a < b < |Items(outs)| ==> Items(outs)[a].video.id != Items(outs)[b].video.id
  {
    IdsAtPositions(outs, 0);
    DistinctAtPositions(Items(outs), MappedPositions(outs, 0));
  }

  /** Every mapped outcome carries the id of its position in the listing. */
  lemma MapAllIds(entries: seq<Entry>, ctx: Context)
    requires forall i :: 0 <= i < |entries| ==> DateModelled(entries[i])
    ensures var outs := MapAll(entries, ctx);
      forall i :: 0 <= i < |outs| && outs[i].Mapped? ==> outs[i].item.video.id == VideoId(i)
  {
  }

  /** Items carrying the ids of strictly increasing positions have
      pairwise distinct ids. */
  lemma DistinctAtPositions(items: seq<Item>, pos: seq<nat>)
    requires IdPositions(items, pos, 0)
    ensures forall a, b :: 0 <= a < b < |items| ==> items[a].video.id != items[b].video.id
  {
    forall a, b | 0 <= a < b < |items|
      ensures items[a].video.id != items[b].video.id
    {
      VideoIdInjective(pos[a], pos[b]);
    }
  }

  /** The positions, counted from `from`, of the mapped outcomes. */
  function MappedPositions(outs: seq<Outcome>, from: nat): seq<nat>
    decreases |outs|
  {
    if |outs| == 0 then []
    else (if outs[0].Mapped? then [from] else []) + MappedPositions(outs[1..], from + 1)
  }

  /** Helper: when every mapped outcome carries the id of its position, the
      items carry the ids of strictly increasing positions. */
  lemma {:induction false} IdsAtPositions(outs: seq<Outcome>, from: nat)
    requires forall i :: 0 <= i < |outs| && outs[i].Mapped? ==> outs[i].item.video.id == VideoId(from + i)
    ensures IdPositions(Items(outs), MappedPositions(outs, from), from)
    decreases |outs|
  {
    if |outs| > 0 {
      IdsAtPositions(outs[1..], from + 1);
    }
  }

  /** `pos` lists, strictly increasing and from `from` on, the listing
      positions whose ids the items carry. */
  ghost predicate IdPositions(items: seq<Item>, pos: seq<nat>, from: nat)
  {
    && |pos| == |items|
    && (forall k :: 0 <= k < |pos| ==> from <= pos[k] && items[k].video.id == VideoId(pos[k]))
    && (forall a, b :: 0 <= a < b < |pos| ==> pos[a] < pos[b])
  }
}
