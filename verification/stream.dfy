/** The `/stream/:videoName` handler as a function from the request (the
    decoded video name and the optional `Range` header) and the files under
    the server root to a response, plus `getLocalIPAddress`. The handler
    implements a subset of HTTP range requests (sections 14.1.2, 14.4 and
    15.3.7 of RFC 9110): it answers a `Range` request with
    `206 Partial Content` when the read stream accepts the parsed bounds,
    drops the connection when it does not, and never answers
    `416 Range Not Satisfiable`. */
module StreamServer {
  import opened Options
  import opened Strings
  import opened JsNumbers
  import opened Paths
  import FeedItems

  newtype byte = x: int | 0 <= x < 256

  datatype Body = TextBody(text: string) | Bytes(data: seq<byte>)

  datatype Response =
    | Response(status: int, headers: seq<(string, string)>, body: Body)
      /** `fs.createReadStream` threw synchronously after `writeHead` had
          stored the `206` head. Express hands the error to its final
          handler, which finds the headers already sent and destroys the
          socket: the client receives no status line and no bytes. */
    | Reset

  /** The regular files on disk, by absolute normalised path. */
  type Files = map<string, seq<byte>>

  /** `toLowerCase` on one character, exact on every character whose lower
      case is '.', 'm', 'k' or 'v': the ASCII capitals and the KELVIN SIGN
      (U+212A), which lower-cases to 'k'. Other characters are kept; those
      with a different lower case never lower-case to one of these four. */
  function LowerChar(c: char): char
  {
    if 'A' <= c <= 'Z' then (c as int + 32) as char
    else if c == '\U{212A}' then 'k'
    else c
  }

  /** `toLowerCase` character by character. */
  function Lower(s: string): (t: string)
    ensures |t| == |s|
    ensures forall i :: 0 <= i < |s| ==> t[i] == LowerChar(s[i])
    decreases |s|
  {
    if |s| == 0 then "" else [LowerChar(s[0])] + Lower(s[1..])
  }

  /** The extension test spelled out character by character. */
  predicate LowerIsMkv(e: string)
  {
    && |e| == 4 && e[0] == '.'
    && (e[1] == 'm' || e[1] == 'M')
    && (e[2] == 'k' || e[2] == 'K' || e[2] == '\U{212A}')
    && (e[3] == 'v' || e[3] == 'V')
  }

  /** The spelled-out test is `toLowerCase() === '.mkv'`. */
  lemma LowerIsMkvExact(e: string)
    ensures LowerIsMkv(e) <==> Lower(e) == ".mkv"
  {
    if Lower(e) == ".mkv" {
      assert |e| == 4;
      assert LowerChar(e[0]) == '.' && LowerChar(e[1]) == 'm';
      assert LowerChar(e[2]) == 'k' && LowerChar(e[3]) == 'v';
    }
    if LowerIsMkv(e) {
      assert Lower(e)[0] == '.' && Lower(e)[1] == 'm' && Lower(e)[2] == 'k' && Lower(e)[3] == 'v';
    }
  }

  /** The content type chosen from the name's extension: Matroska exactly
      when the lower-cased extension is `.mkv`, MP4 for every other one. */
  function ContentType(videoName: string): (t: string)
    ensures t == "video/x-matroska" || t == "video/mp4"
    ensures t == "video/x-matroska" <==> Lower(ExtName(videoName)) == ".mkv"
  {
    LowerIsMkvExact(ExtName(videoName));
    if LowerIsMkv(ExtName(videoName)) then "video/x-matroska" else "video/mp4"
  }

  /** The feed and the stream agree on a bare file name's container: a name
      the feed lists as `MKV` is served as Matroska and one it lists as
      `MP4` as MP4. (The converse fails only for an extension spelled with
      the Kelvin sign, which the stream lower-cases to 'k' while the feed's
      upper-casing keeps it.) */
  lemma FeedTypeMatchesContentType(name: string)
    requires '/' !in name
    ensures FeedItems.VideoType(name) == "MKV" ==> ContentType(name) == "video/x-matroska"
    ensures FeedItems.VideoType(name) == "MP4" ==> ContentType(name) == "video/mp4"
  {
    ExtNameOfBareName(name);
    StemExtSplit(name);
    var e := Ext(name);
    if |e| > 0 {
      assert FeedItems.VideoType(name) == FeedItems.AsciiUpper(e[1..]);
      UpperSpelling(e);
    }
  }

  /** An extension the feed upper-cases to `MKV` passes the stream's
      Matroska test, and one it upper-cases to `MP4` fails it. */
  lemma UpperSpelling(e: string)
    requires |e| > 0 && e[0] == '.'
    ensures FeedItems.AsciiUpper(e[1..]) == "MKV" ==> LowerIsMkv(e)
    ensures FeedItems.AsciiUpper(e[1..]) == "MP4" ==> !LowerIsMkv(e)
  {
    var t := FeedItems.AsciiUpper(e[1..]);
    if t == "MKV" || t == "MP4" {
      assert |e| == 4;
      assert t[0] == FeedItems.AsciiUpperChar(e[1]) && t[1] == FeedItems.AsciiUpperChar(e[2]);
      assert t[2] == FeedItems.AsciiUpperChar(e[3]);
    }
  }

  /** The bounds read from a `Range` header value: the text before the
      first '-' (once the first "bytes=" is removed) is the start; the text
      between the first and second '-' is the end, unless it is empty or
      missing, when the end is the last byte of the file. */
  datatype Bounds = Bounds(start: JsNum, end: JsNum)

  function RangeBounds(range: string, size: nat): (b: Bounds)
    ensures b.start == ParseInt(Split(ReplaceFirst(range, "bytes=", ""), '-')[0])
    ensures b.start.Num? ==> b.start.v >= 0
  {
    var parts := Split(ReplaceFirst(range, "bytes=", ""), '-');
    SplitPiecesLackSeparator(ReplaceFirst(range, "bytes=", ""), '-');
    ParseIntWithoutMinus(parts[0]);
    var end := if |parts| > 1 && parts[1] != "" then ParseInt(parts[1]) else Num(size - 1);
    Bounds(ParseInt(parts[0]), end)
  }

  /** Whether `fs.createReadStream(path, { start, end })` accepts the bounds:
      both must be non-negative integers with `start <= end`. */
  predicate StreamAccepts(b: Bounds)
  {
    b.start.Num? && b.end.Num? && 0 <= b.start.v <= b.end.v
  }

  /** The bytes a read stream from `start` to `end` inclusive delivers: it
      stops early at the end of the file. */
  function ReadRange(file: seq<byte>, start: nat, end: nat): (r: seq<byte>)
    requires start <= end
    ensures start < |file| ==> |r| == (if end + 1 < |file| then end + 1 else |file|) - start
    ensures start >= |file| ==> r == []
    ensures forall i :: 0 <= i < |r| ==> r[i] == file[start + i]
  {
    if start >= |file| then []
    else if end + 1 < |file| then file[start..end + 1]
    else file[start..]
  }

  /** The `206` answer for the bounds `b`: the head announces the bounds as
      parsed, and the body is what a read stream over them delivers. */
  function PartialContent(file: seq<byte>, b: Bounds, contentType: string): (r: Response)
    requires StreamAccepts(b)
    ensures r.Response? && r.status == 206 && r.body.Bytes?
    ensures |r.body.data| <= b.end.v - b.start.v + 1
    ensures |r.headers| == 4 && r.headers[0].0 == "Content-Range" && r.headers[2].0 == "Content-Length"
  {
    var headers := [
      ("Content-Range", "bytes " + JsNumToString(b.start) + "-" + JsNumToString(b.end) + "/" + NatToString(|file|)),
      ("Accept-Ranges", "bytes"),
      ("Content-Length", JsNumToString(Add(Sub(b.end, b.start), Num(1)))),
      ("Content-Type", contentType)];
    Response(206, headers, Bytes(ReadRange(file, b.start.v, b.end.v)))
  }

  /** The handler for a request whose video name is already decoded. `range`
      is `req.headers.range` (`None` when the header is absent). With a
      range, the head is stored before the read stream checks the bounds,
      so bounds it rejects end the exchange without an answer. */
  function HandleStream(rootSegs: seq<string>, files: Files, videoName: string, range: Option<string>): (r: Response)
    ensures VideoPath(RootPath(rootSegs), videoName) !in files <==> r == Response(404, [], TextBody("Video not found."))
    ensures r.Reset? <==>
      && VideoPath(RootPath(rootSegs), videoName) in files && range.Some? && range.value != ""
      && !StreamAccepts(RangeBounds(range.value, |files[VideoPath(RootPath(rootSegs), videoName)]|))
    ensures r.Response? && r.status != 404 ==> r.status == (if range.Some? && range.value != "" then 206 else 200)
  {
    var path := VideoPath(RootPath(rootSegs), videoName);
    if path !in files then Response(404, [], TextBody("Video not found."))
    else
      var file := files[path];
      var size := |file|;
      var contentType := ContentType(videoName);
      if range.Some? && range.value != "" then
        var b := RangeBounds(range.value, size);
        if StreamAccepts(b) then PartialContent(file, b, contentType) else Reset
      else
        Response(200, [("Content-Length", NatToString(size)), ("Content-Type", contentType)], Bytes(file))
  }

  /** Without a (non-empty) `Range` header the whole file is sent with its
      size as `Content-Length`. */
  lemma WholeFile(rootSegs: seq<string>, files: Files, videoName: string, range: Option<string>)
    requires VideoPath(RootPath(rootSegs), videoName) in files
    requires range.None? || range.value == ""
    ensures var file := files[VideoPath(RootPath(rootSegs), videoName)];
      var r := HandleStream(rootSegs, files, videoName, range);
      && r.status == 200
      && r.body == Bytes(file)
      && ParseInt(r.headers[0].1) == Num(|file|) && r.headers[0].0 == "Content-Length"
      && r.headers[1] == ("Content-Type", ContentType(videoName))
  {
    ParseIntOfNatToString(|files[VideoPath(RootPath(rootSegs), videoName)]|);
  }

  /** The text of a range header `bytes=<a>-<b>`. */
  function RangeText(a: nat, b: nat): string
  {
    "bytes=" + NatToString(a) + "-" + NatToString(b)
  }

  lemma ReplaceFirstAtStart(rest: string)
    ensures ReplaceFirst("bytes=" + rest, "bytes=", "") == rest
  {
    assert StartsWith("bytes=" + rest, "bytes=");
    assert ("bytes=" + rest)[6..] == rest;
  }

  /** The bounds of `bytes=<a>-<b>` are `a` and `b`. */
  lemma RangeTextBounds(a: nat, b: nat, size: nat)
    ensures RangeBounds(RangeText(a, b), size) == Bounds(Num(a), Num(b))
  {
    var sa, sb := NatToString(a), NatToString(b);
    assert RangeText(a, b) == "bytes=" + (sa + ['-'] + sb);
    ReplaceFirstAtStart(sa + ['-'] + sb);
    NatToStringDigits(a);
    NatToStringDigits(b);
    SplitAround(sa, '-', sb);
    SplitWithoutSeparator(sa, '-');
    SplitWithoutSeparator(sb, '-');
    ParseIntOfNatToString(a);
    ParseIntOfNatToString(b);
  }

  /** An open range `bytes=<a>-` reads from `a` to the last byte of the file. */
  lemma RangeOpenEnd(a: nat, size: nat)
    ensures RangeBounds("bytes=" + NatToString(a) + "-", size) == Bounds(Num(a), Num(size - 1))
  {
    var sa := NatToString(a);
    assert "bytes=" + sa + "-" == "bytes=" + (sa + ['-'] + "");
    ReplaceFirstAtStart(sa + ['-'] + "");
    NatToStringDigits(a);
    SplitAround(sa, '-', "");
    SplitWithoutSeparator(sa, '-');
    assert Split("", '-') == [""];
    ParseIntOfNatToString(a);
  }

  /** A range without a dash, `bytes=<a>`, is read like the open range
      `bytes=<a>-`. */
  lemma RangeNoDash(a: nat, size: nat)
    ensures RangeBounds("bytes=" + NatToString(a), size) == Bounds(Num(a), Num(size - 1))
  {
    var sa := NatToString(a);
    ReplaceFirstAtStart(sa);
    NatToStringDigits(a);
    SplitWithoutSeparator(sa, '-');
    ParseIntOfNatToString(a);
  }

  /** A satisfiable range `bytes=<a>-<b>` (`a <= b < size`) is answered with
      `206`, `Content-Range: bytes a-b/size`, a `Content-Length` of
      `b - a + 1` and exactly the bytes `a` to `b` of the file. */
  lemma SatisfiableRange(rootSegs: seq<string>, files: Files, videoName: string, a: nat, b: nat)
    requires VideoPath(RootPath(rootSegs), videoName) in files
    requires a <= b < |files[VideoPath(RootPath(rootSegs), videoName)]|
    ensures var file := files[VideoPath(RootPath(rootSegs), videoName)];
      var r := HandleStream(rootSegs, files, videoName, Some(RangeText(a, b)));
      && r.Response? && r.status == 206
      && r.headers == [
           ("Content-Range", "bytes " + NatToString(a) + "-" + NatToString(b) + "/" + NatToString(|file|)),
           ("Accept-Ranges", "bytes"),
           ("Content-Length", NatToString(b - a + 1)),
           ("Content-Type", ContentType(videoName))]
      && r.body == Bytes(file[a..b + 1])
      && |file[a..b + 1]| == b - a + 1
  {
    var file := files[VideoPath(RootPath(rootSegs), videoName)];
    RangeTextBounds(a, b, |file|);
    RangeTextNonEmpty(a, b);
    PartialContentOfNums(file, a, b, ContentType(videoName));
  }

  lemma RangeTextNonEmpty(a: nat, b: nat)
    ensures RangeText(a, b) != ""
  {
    assert RangeText(a, b)[0] == 'b';
  }

  /** The `206` answer for numeric bounds within the file. */
  lemma PartialContentOfNums(file: seq<byte>, a: nat, b: nat, contentType: string)
    requires a <= b < |file|
    ensures PartialContent(file, Bounds(Num(a), Num(b)), contentType)
            == Response(206, [
                 ("Content-Range", "bytes " + NatToString(a) + "-" + NatToString(b) + "/" + NatToString(|file|)),
                 ("Accept-Ranges", "bytes"),
                 ("Content-Length", NatToString(b - a + 1)),
                 ("Content-Type", contentType)],
               Bytes(file[a..b + 1]))
  {
    assert JsNumToString(Num(a)) == NatToString(a);
    assert JsNumToString(Num(b)) == NatToString(b);
    assert JsNumToString(Add(Sub(Num(b), Num(a)), Num(1))) == NatToString(b - a + 1);
  }

  lemma SmallNumerals()
    ensures NatToString(0) == "0" && NatToString(99) == "99"
    ensures NatToString(100) == "100" && NatToString(1000) == "1000"
  {
    assert NatToString(9) == "9";
    assert NatToString(1) == "1";
    assert NatToString(10) == "10";
    assert NatToString(100) == "100";
  }

  lemma ExampleContentRange()
    ensures "bytes " + "0" + "-" + "99" + "/" + "1000" == "bytes 0-99/1000"
  {
    var x := "bytes " + "0" + "-" + "99" + "/" + "1000";
    forall i | 0 <= i < 15
      ensures x[i] == "bytes 0-99/1000"[i]
    {
    }
  }

  /** The example `bytes=0-99` on a 1000-byte file: 100 bytes, announced as
      `bytes 0-99/1000`. */
  lemma FirstHundredBytes(rootSegs: seq<string>, files: Files, videoName: string, a: nat, b: nat)
    requires VideoPath(RootPath(rootSegs), videoName) in files
    requires |files[VideoPath(RootPath(rootSegs), videoName)]| == 1000
    requires a == 0 && b == 99
    ensures var r := HandleStream(rootSegs, files, videoName, Some(RangeText(a, b)));
      && r.Response? && r.status == 206
      && r.headers[0] == ("Content-Range", "bytes 0-99/1000")
      && r.headers[2] == ("Content-Length", "100")
      && r.body.Bytes? && |r.body.data| == 100
  {
    var file := files[VideoPath(RootPath(rootSegs), videoName)];
    var r := HandleStream(rootSegs, files, videoName, Some(RangeText(a, b)));
    SatisfiableRange(rootSegs, files, videoName, a, b);
    SmallNumerals();
    var cr := "bytes " + NatToString(a) + "-" + NatToString(b) + "/" + NatToString(|file|);
    assert r.headers[0] == ("Content-Range", cr);
    assert cr == "bytes " + "0" + "-" + "99" + "/" + "1000";
    ExampleContentRange();
    assert r.headers[2] == ("Content-Length", NatToString(b - a + 1));
  }

  /** No `Range` value gets `416`: bounds the read stream accepts get `206`,
      even when no byte of the file lies in them (a start past the end
      gives an empty body, an end past it a body cut short at the end of
      the file), and bounds it rejects drop the connection. */
  lemma NeverRangeNotSatisfiable(rootSegs: seq<string>, files: Files, videoName: string, range: string)
    requires VideoPath(RootPath(rootSegs), videoName) in files && range != ""
    ensures var file := files[VideoPath(RootPath(rootSegs), videoName)];
      var b := RangeBounds(range, |file|);
      var r := HandleStream(rootSegs, files, videoName, Some(range));
      && (StreamAccepts(b) ==> r.Response? && r.status == 206)
      && (StreamAccepts(b) && b.start.v >= |file| ==> r.body == Bytes([]))
      && (StreamAccepts(b) && b.start.v < |file| <= b.end.v ==> r.body == Bytes(file[b.start.v..]))
      && (!StreamAccepts(b) ==> r == Reset)
  {
  }

  /** A suffix range `bytes=-<n>` (section 14.1.2 of RFC 9110) reads no
      start: the handler drops the connection instead of sending the last
      `n` bytes. */
  lemma SuffixRangeResets(rootSegs: seq<string>, files: Files, videoName: string, n: nat)
    requires VideoPath(RootPath(rootSegs), videoName) in files
    ensures HandleStream(rootSegs, files, videoName, Some("bytes=-" + NatToString(n))) == Reset
  {
    var size := |files[VideoPath(RootPath(rootSegs), videoName)]|;
    SuffixRangeStart(n, size);
    assert ("bytes=-" + NatToString(n))[0] == 'b';
  }

  /** The start of `bytes=-<n>` is `parseInt("")`, which is `NaN`. */
  lemma SuffixRangeStart(n: nat, size: nat)
    ensures RangeBounds("bytes=-" + NatToString(n), size).start == NaN
  {
    var sn := NatToString(n);
    assert "bytes=-" + sn == "bytes=" + ("" + ['-'] + sn);
    ReplaceFirstAtStart("" + ['-'] + sn);
    NatToStringDigits(n);
    SplitAround("", '-', sn);
    assert Split("", '-') == [""];
  }

  /** Whatever bytes the handler sends are a contiguous part of the file
      at the resolved path. */
  lemma BodyIsSlice(rootSegs: seq<string>, files: Files, videoName: string, range: Option<string>)
    requires VideoPath(RootPath(rootSegs), videoName) in files
    ensures var file := files[VideoPath(RootPath(rootSegs), videoName)];
      var r := HandleStream(rootSegs, files, videoName, range);
      r.Response? && r.body.Bytes? ==> exists s, e :: 0 <= s <= e <= |file| && r.body.data == file[s..e]
  {
    var file := files[VideoPath(RootPath(rootSegs), videoName)];
    if range.Some? && range.value != "" {
      var b := RangeBounds(range.value, |file|);
      if StreamAccepts(b) {
        PartialBodySlice(file, b, ContentType(videoName));
      }
    } else {
      assert file == file[0..|file|];
    }
  }

  /** The bytes of a `206` answer are a contiguous part of the file. */
  lemma PartialBodySlice(file: seq<byte>, b: Bounds, contentType: string)
    requires StreamAccepts(b)
    ensures var body := PartialContent(file, b, contentType).body;
      exists s, e :: 0 <= s <= e <= |file| && body.data == file[s..e]
  {
    ReadRangeSlice(file, b.start.v, b.end.v);
  }

  lemma ReadRangeSlice(file: seq<byte>, start: nat, end: nat)
    requires start <= end
    ensures exists s, e :: 0 <= s <= e <= |file| && ReadRange(file, start, end) == file[s..e]
  {
    if start >= |file| {
      assert ReadRange(file, start, end) == file[|file|..|file|];
    } else if end + 1 < |file| {
      assert ReadRange(file, start, end) == file[start..end + 1];
    } else {
      assert ReadRange(file, start, end) == file[start..|file|];
    }
  }

  /** As written, an end bound at or past the end of the file is announced
      unchanged: `Content-Length` promises `end - start + 1` bytes while the
      read stream stops at the end of the file, so fewer bytes follow than
      the head announces. */
  lemma OverlongRangeLength(file: seq<byte>, a: nat, b: nat, contentType: string)
    requires a < |file| <= b
    ensures var bounds := RangeBounds(RangeText(a, b), |file|);
      && StreamAccepts(bounds)
      && var r := PartialContent(file, bounds, contentType);
      && ParseInt(r.headers[2].1) == Num(b - a + 1)
      && r.body == Bytes(file[a..])
      && |r.body.data| < b - a + 1
  {
    RangeTextBounds(a, b, |file|);
    OverlongBounds(file, Bounds(Num(a), Num(b)), contentType);
  }

  lemma OverlongBounds(file: seq<byte>, b: Bounds, contentType: string)
    requires StreamAccepts(b) && b.start.v < |file| <= b.end.v
    ensures var r := PartialContent(file, b, contentType);
      && ParseInt(r.headers[2].1) == Num(b.end.v - b.start.v + 1)
      && r.body == Bytes(file[b.start.v..])
      && |r.body.data| < b.end.v - b.start.v + 1
  {
    var r := PartialContent(file, b, contentType);
    var n := b.end.v - b.start.v + 1;
    assert r.body == Bytes(file[b.start.v..]) by {
      PartialContentAccepted(file, b, contentType);
    }
    assert r.headers[2].1 == NatToString(n) by {
      PartialContentAccepted(file, b, contentType);
    }
    assert ParseInt(NatToString(n)) == Num(n) by {
      ParseIntOfNatToString(n);
    }
  }

  /** The head and body of a `206` answer whose bounds the read stream accepts. */
  lemma PartialContentAccepted(file: seq<byte>, b: Bounds, contentType: string)
    requires StreamAccepts(b)
    ensures PartialContent(file, b, contentType).headers[2].1 == NatToString(b.end.v - b.start.v + 1)
    ensures PartialContent(file, b, contentType).body == Bytes(ReadRange(file, b.start.v, b.end.v))
  {
    assert JsNumToString(Add(Sub(b.end, b.start), Num(1))) == NatToString(b.end.v - b.start.v + 1);
  }

  /** Section 14.1.2 of RFC 9110: a last position at or past the end of the
      representation means its last byte. */
  function ClampEnd(b: Bounds, size: nat): (c: Bounds)
    ensures c.start == b.start
    ensures c.end.Num? && b.end.Num? ==> c.end.v <= b.end.v && c.end.v < size
    ensures b.end.Num? && b.end.v < size ==> c == b
  {
    if b.end.Num? && b.end.v >= size then Bounds(b.start, Num(size - 1)) else b
  }

  /** The range answer with the end bound clamped to the file. */
  function ClampedPartialContent(file: seq<byte>, range: string, contentType: string): Response
  {
    var b := ClampEnd(RangeBounds(range, |file|), |file|);
    if StreamAccepts(b) then PartialContent(file, b, contentType) else Reset
  }

  /** With the clamp, whenever the read stream accepts the bounds the head
      tells the truth: `Content-Length` is the number of bytes sent, and the
      bytes are those from the start bound on. */
  lemma ClampedLengthMatches(file: seq<byte>, range: string, contentType: string)
    ensures var b := ClampEnd(RangeBounds(range, |file|), |file|);
      var r := ClampedPartialContent(file, range, contentType);
      StreamAccepts(b) ==>
        && r.Response? && r.body.Bytes?
        && ParseInt(r.headers[2].1) == Num(|r.body.data|)
        && r.body.data == file[b.start.v..b.end.v + 1]
  {
    var b := ClampEnd(RangeBounds(range, |file|), |file|);
    if StreamAccepts(b) {
      ClampedEndInFile(RangeBounds(range, |file|), |file|);
      BoundsInFile(file, b, contentType);
    }
  }

  /** Bounds within the file make a truthful head. */
  lemma BoundsInFile(file: seq<byte>, b: Bounds, contentType: string)
    requires StreamAccepts(b) && b.end.v < |file|
    ensures var r := PartialContent(file, b, contentType);
      && r.body.Bytes?
      && ParseInt(r.headers[2].1) == Num(|r.body.data|)
      && r.body.data == file[b.start.v..b.end.v + 1]
  {
    var r := PartialContent(file, b, contentType);
    var n := b.end.v - b.start.v + 1;
    assert r.body == Bytes(file[b.start.v..b.end.v + 1]) by {
      PartialContentAccepted(file, b, contentType);
      assert ReadRange(file, b.start.v, b.end.v) == file[b.start.v..b.end.v + 1];
    }
    assert r.headers[2].1 == NatToString(n) by {
      PartialContentAccepted(file, b, contentType);
    }
    assert ParseInt(NatToString(n)) == Num(n) by {
      ParseIntOfNatToString(n);
    }
  }

  lemma ClampedEndInFile(b: Bounds, size: nat)
    requires StreamAccepts(ClampEnd(b, size))
    ensures ClampEnd(b, size).end.v < size
  {
  }

  /** With a name free of ".." segments, the file served (whole, in part,
      or not at all) is the one at the resolved path, which lies in the
      video directory. */
  lemma ServesOnlyVideos(rootSegs: seq<string>, files: Files, videoName: string, range: Option<string>)
    requires forall i :: 0 <= i < |rootSegs| ==> NormalSegment(rootSegs[i])
    requires forall i :: 0 <= i < |Split(videoName, '/')| ==> Split(videoName, '/')[i] != ".."
    requires VideoPath(RootPath(rootSegs), videoName) in files
    ensures var p := VideoPath(RootPath(rootSegs), videoName);
      var r := HandleStream(rootSegs, files, videoName, range);
      && (p == VideoDir(rootSegs) || StartsWith(p, VideoDir(rootSegs) + "/"))
      && (r.Response? && r.body.Bytes? ==> exists s, e :: 0 <= s <= e <= |files[p]| && r.body.data == files[p][s..e])
  {
    VideoPathContained(rootSegs, videoName);
    BodyIsSlice(rootSegs, files, videoName, range);
  }

  /** Without a guard, `../<file>` escapes: the handler serves `<file>` from
      the directory above the videos. */
  lemma ServesOutsideVideos(rootSegs: seq<string>, files: Files, file: string)
    requires forall i :: 0 <= i < |rootSegs| ==> NormalSegment(rootSegs[i])
    requires NormalSegment(file) && file != "Videos"
    requires RootPath(rootSegs + [file]) in files
    ensures HandleStream(rootSegs, files, "../" + file, None)
            == Response(200, [("Content-Length", NatToString(|files[RootPath(rootSegs + [file])]|)),
                              ("Content-Type", ContentType("../" + file))],
                        Bytes(files[RootPath(rootSegs + [file])]))
    ensures !StartsWith(RootPath(rootSegs + [file]), VideoDir(rootSegs) + "/")
  {
    DotDotEscapes(rootSegs, file);
  }

  // ---------------------------------------------------------------------
  // getLocalIPAddress
  // ---------------------------------------------------------------------

  /** One address entry of `os.networkInterfaces()`. */
  datatype NetInterface = NetInterface(address: string, family: string, internal: bool)

  predicate Eligible(iface: NetInterface)
  {
    !iface.internal && iface.family == "IPv4"
  }

  /** Position (i, j) comes before position (i2, j2) in iteration order. */
  predicate Earlier(i: int, j: int, i2: int, j2: int)
  {
    i < i2 || (i == i2 && j < j2)
  }

  /** The address of the first non-internal IPv4 entry, interfaces and
      their entries taken in iteration order, or "localhost" when there is
      none. */
  method GetLocalIPAddress(interfaces: seq<seq<NetInterface>>) returns (address: string)
    ensures (forall i, j :: 0 <= i < |interfaces| && 0 <= j < |interfaces[i]| ==> !Eligible(interfaces[i][j]))
            ==> address == "localhost"
    ensures (exists i, j :: 0 <= i < |interfaces| && 0 <= j < |interfaces[i]| && Eligible(interfaces[i][j]))
            ==> exists i, j :: 0 <= i < |interfaces| && 0 <= j < |interfaces[i]| && Eligible(interfaces[i][j])
                  && address == interfaces[i][j].address
                  && forall i2, j2 :: 0 <= i2 < |interfaces| && 0 <= j2 < |interfaces[i2]| && Earlier(i2, j2, i, j)
                       ==> !Eligible(interfaces[i2][j2])
  {
    var i := 0;
    while i < |interfaces|
      invariant 0 <= i <= |interfaces|
      invariant forall i2, j2 :: 0 <= i2 < i && 0 <= j2 < |interfaces[i2]| ==> !Eligible(interfaces[i2][j2])
    {
      var j := 0;
      while j < |interfaces[i]|
        invariant 0 <= j <= |interfaces[i]|
        invariant forall j2 :: 0 <= j2 < j ==> !Eligible(interfaces[i][j2])
      {
        if Eligible(interfaces[i][j]) {
          return interfaces[i][j].address;
        }
        j := j + 1;
      }
      i := i + 1;
    }
    return "localhost";
  }
}
