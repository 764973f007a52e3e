/** Ledger reconciliation: the archive file lists one title per line; a run
    appends, as one `\n`-terminated batch, the titles of the video files
    that the ledger does not list yet. */
module Archive {
  import opened Options
  import opened Strings
  import Paths
  import FeedItems

  // ---------------------------------------------------------------------
  // The extension test /\.(mp4|mkv|avi|mov)$/i
  // ---------------------------------------------------------------------

  function AsciiLowerChar(c: char): char
  {
    if 'A' <= c <= 'Z' then (c as int + 32) as char else c
  }

  /** The case folding of a regular expression with the `i` flag and without
      the `u` flag, as far as this pattern needs it: only ASCII letters
      match their other case (no non-ASCII character folds onto an ASCII
      one under that rule). */
  function FoldAscii(s: string): (t: string)
    ensures |t| == |s|
    ensures forall i :: 0 <= i < |s| ==> t[i] == AsciiLowerChar(s[i])
    decreases |s|
  {
    if |s| == 0 then "" else [AsciiLowerChar(s[0])] + FoldAscii(s[1..])
  }

  const VideoExtensions: seq<string> := [".mp4", ".mkv", ".avi", ".mov"]

  /** `/\.(mp4|mkv|avi|mov)$/i.test(file)`. */
  predicate IsCandidate(file: string)
  {
    |file| >= 4 && FoldAscii(file[|file| - 4..]) in VideoExtensions
  }

  lemma FoldIdempotent(s: string)
    ensures FoldAscii(FoldAscii(s)) == FoldAscii(s)
  {
  }

  /** Folding commutes with taking the last four characters. */
  lemma FoldTail(file: string)
    requires |file| >= 4
    ensures FoldAscii(file)[|file| - 4..] == FoldAscii(file[|file| - 4..])
  {
  }

  /** The extension of `name + ext` is folded on its own. */
  lemma CandidateOfSuffix(name: string, ext: string)
    requires |ext| == 4
    ensures IsCandidate(name + ext) <==> FoldAscii(ext) in VideoExtensions
  {
    var f := name + ext;
    assert f[|f| - 4..] == ext;
  }

  lemma LowerExtensions()
    ensures FoldAscii(".mp4") == ".mp4" && FoldAscii(".mkv") == ".mkv"
    ensures FoldAscii(".avi") == ".avi" && FoldAscii(".mov") == ".mov"
  {
    assert FoldAscii(".mp4") == ".mp4";
    assert FoldAscii(".mkv") == ".mkv";
    assert FoldAscii(".avi") == ".avi";
    assert FoldAscii(".mov") == ".mov";
  }

  lemma UpperMov()
    ensures FoldAscii(".MOV") == ".mov"
  {
    var t := FoldAscii(".MOV");
    assert t[1] == 'm' && t[2] == 'o' && t[3] == 'v';
  }

  /** The test looks at the last four characters only, up to ASCII case:
      folding the name changes nothing, and every name that ends with one
      of the four extensions in lower case passes. */
  lemma CandidateIgnoresCase(file: string)
    ensures IsCandidate(file) <==> IsCandidate(FoldAscii(file))
    ensures forall e :: e in VideoExtensions ==> EndsWith(file, e) ==> IsCandidate(file)
  {
    if |file| >= 4 {
      FoldTail(file);
      FoldIdempotent(file[|file| - 4..]);
      LowerExtensions();
    }
  }

  /** Every file the feed lists is also recorded in the ledger's pass: the
      feed's case-sensitive filter is narrower than the ledger's, which
      also takes upper-case extensions and `.avi` and `.mov`. */
  lemma FeedVideosAreCandidates(name: string)
    ensures FeedItems.IsFeedVideo(name) ==> IsCandidate(name)
    ensures IsCandidate(name + ".MOV") && !FeedItems.IsFeedVideo(name + ".MOV")
  {
    CandidateIgnoresCase(name);
    UpperMovCandidate(name);
  }

  lemma UpperMovCandidate(name: string)
    ensures IsCandidate(name + ".MOV") && !FeedItems.IsFeedVideo(name + ".MOV")
  {
    UpperMov();
    CandidateOfSuffix(name, ".MOV");
    var f := name + ".MOV";
    assert f[|f| - 4..] == ".MOV";
  }

  // ---------------------------------------------------------------------
  // The ledger
  // ---------------------------------------------------------------------

  /** `new Set(text.split('\n').filter(line => line))`. */
  function LineSet(text: string): set<string>
  {
    set line | line in Split(text, '\n') && line != ""
  }

  /** The titles to add, in directory order: the stem of every candidate
      file that is not in `known`. Two files with the same stem both
      contribute it. */
  function NewEntries(known: set<string>, files: seq<string>): (r: seq<string>)
    ensures |r| <= |files|
    decreases |files|
  {
    if |files| == 0 then []
    else
      var title := Paths.Stem(files[0]);
      (if IsCandidate(files[0]) && title !in known then [title] else []) + NewEntries(known, files[1..])
  }

  /** A title is new exactly when some candidate file has it as its stem and
      the ledger does not know it. */
  lemma {:induction false} NewEntriesMembers(known: set<string>, files: seq<string>)
    ensures forall t :: t in NewEntries(known, files) <==>
              t !in known && exists i :: 0 <= i < |files| && IsCandidate(files[i]) && Paths.Stem(files[i]) == t
    decreases |files|
  {
    if |files| > 0 {
      NewEntriesMembers(known, files[1..]);
      forall t | t !in known && (exists i :: 0 <= i < |files| && IsCandidate(files[i]) && Paths.Stem(files[i]) == t)
        ensures t in NewEntries(known, files)
      {
        var i :| 0 <= i < |files| && IsCandidate(files[i]) && Paths.Stem(files[i]) == t;
        if i > 0 {
          assert files[1..][i - 1] == files[i];
        }
      }
    }
  }

  /** The text appended: `newEntries.join('\n') + '\n'`, or nothing. */
  function AppendText(entries: seq<string>): (r: string)
    ensures |entries| == 0 <==> r == ""
  {
    if |entries| == 0 then "" else Join(entries, "\n") + "\n"
  }

  /** `generateArchive`: the ledger text before the run (`None` when the
      file does not exist, which creates it empty) and the directory listing
      (`None` when `readdir` fails) give the ledger text after the run. */
  function Reconcile(ledger: Option<string>, listing: Option<seq<string>>): (after: string)
    ensures ledger.None? && listing.None? ==> after == ""
  {
    var text := if ledger.Some? then ledger.value else "";
    match listing
    case None => text
    case Some(files) => text + AppendText(NewEntries(LineSet(text), files))
  }

  /** The ledger only grows at its end, and it grows exactly when the
      directory lists a candidate whose title the ledger does not know. */
  lemma AppendOnly(ledger: Option<string>, listing: Option<seq<string>>)
    ensures var text := if ledger.Some? then ledger.value else "";
      && StartsWith(Reconcile(ledger, listing), text)
      && (Reconcile(ledger, listing) == text <==>
            listing.None? || NewEntries(LineSet(text), listing.value) == [])
  {
    var text := if ledger.Some? then ledger.value else "";
    var after := Reconcile(ledger, listing);
    assert after[..|text|] == text;
  }

  /** Well-formed ledger text: empty, or ending in a line break. */
  predicate Terminated(text: string)
  {
    text == "" || text[|text| - 1] == '\n'
  }

  /** Titles that can be ledger lines: non-empty, no line break. */
  predicate LineLike(t: string)
  {
    t != "" && '\n' !in t
  }

  /** A line break splits the line set in two. */
  lemma LineSetAround(a: string, b: string)
    ensures LineSet(a + ['\n'] + b) == LineSet(a) + LineSet(b)
  {
    SplitAround(a, '\n', b);
  }

  lemma LineSetEmpty()
    ensures LineSet("") == {}
  {
    SplitWithoutSeparator("", '\n');
  }

  /** The lines of joined line-like titles are the titles. */
  lemma LineSetJoin(entries: seq<string>)
    requires |entries| >= 1
    requires forall i :: 0 <= i < |entries| ==> LineLike(entries[i])
    ensures LineSet(Join(entries, "\n")) == set t | t in entries
  {
    SplitJoin(entries, '\n');
    assert "\n" == ['\n'];
  }

  /** On a terminated ledger, the appended batch adds exactly its titles to
      the line set, and the ledger stays terminated. */
  lemma LineSetAfterAppend(text: string, entries: seq<string>)
    requires Terminated(text)
    requires forall i :: 0 <= i < |entries| ==> LineLike(entries[i])
    ensures LineSet(text + AppendText(entries)) == LineSet(text) + set t | t in entries
    ensures Terminated(text + AppendText(entries))
  {
    if |entries| > 0 {
      var joined := Join(entries, "\n");
      var added := joined + "\n";
      assert added == joined + ['\n'] + "";
      LineSetAround(joined, "");
      LineSetEmpty();
      LineSetJoin(entries);
      if text == "" {
        assert text + AppendText(entries) == added;
      } else {
        var body := text[..|text| - 1];
        assert text == body + ['\n'] + "";
        LineSetAround(body, "");
        assert text + AppendText(entries) == body + ['\n'] + added;
        LineSetAround(body, added);
      }
    } else {
      assert text + AppendText(entries) == text;
    }
  }

  /** Titles of the candidate files that are line-like. */
  predicate LineLikeTitles(files: seq<string>)
  {
    forall i :: 0 <= i < |files| && IsCandidate(files[i]) ==> '\n' !in Paths.Stem(files[i])
  }

  /** The stem of a candidate is never empty. */
  lemma CandidateStemNonEmpty(file: string)
    requires IsCandidate(file)
    ensures Paths.Stem(file) != ""
  {
    Paths.StemExtSplit(file);
  }

  /** After a run on a terminated ledger, the ledger knows the title of
      every candidate in the directory. */
  lemma KnownAfterRun(text: string, files: seq<string>, after: string)
    requires Terminated(text)
    requires LineLikeTitles(files)
    requires after == text + AppendText(NewEntries(LineSet(text), files))
    ensures Terminated(after)
    ensures LineSet(after) == LineSet(text) + set t | t in NewEntries(LineSet(text), files)
    ensures NewEntries(LineSet(after), files) == []
  {
    var entries := NewEntries(LineSet(text), files);
    NewEntriesMembers(LineSet(text), files);
    forall i | 0 <= i < |entries|
      ensures LineLike(entries[i])
    {
      assert entries[i] in entries;
      var k :| 0 <= k < |files| && IsCandidate(files[k]) && Paths.Stem(files[k]) == entries[i];
      CandidateStemNonEmpty(files[k]);
    }
    LineSetAfterAppend(text, entries);
    forall k | 0 <= k < |files| && IsCandidate(files[k])
      ensures Paths.Stem(files[k]) in LineSet(after)
    {
      if Paths.Stem(files[k]) !in LineSet(text) {
        assert Paths.Stem(files[k]) in entries;
      }
    }
    NewEntriesNone(LineSet(after), files);
  }

  /** Idempotence: on a terminated ledger, a second run over the same
      directory appends nothing. */
  lemma Idempotent(text: string, files: seq<string>)
    requires Terminated(text)
    requires LineLikeTitles(files)
    ensures Reconcile(Some(Reconcile(Some(text), Some(files))), Some(files)) == Reconcile(Some(text), Some(files))
  {
    var after := Reconcile(Some(text), Some(files));
    assert after == text + AppendText(NewEntries(LineSet(text), files));
    KnownAfterRun(text, files, after);
    assert NewEntries(LineSet(after), files) == [];
    assert Reconcile(Some(after), Some(files)) == after + AppendText([]);
  }

  /** Nothing is new when the ledger knows the title of every candidate. */
  lemma {:induction false} NewEntriesNone(known: set<string>, files: seq<string>)
    requires forall k :: 0 <= k < |files| && IsCandidate(files[k]) ==> Paths.Stem(files[k]) in known
    ensures NewEntries(known, files) == []
    decreases |files|
  {
    if |files| > 0 {
      NewEntriesNone(known, files[1..]);
    }
  }

  /** Without a final line break the first new title is glued to the last
      line: the ledger "a" with the file "b.mp4" becomes "ab\n", whose only
      line is "ab", so neither "a" nor "b" is known afterwards. */
  lemma UnterminatedLedgerMergesLines(last: string, title: string)
    requires LineLike(last) && LineLike(title) && last != title
    ensures Reconcile(Some(last), Some([title + ".mp4"])) == last + title + "\n"
    ensures LineSet(last + title + "\n") == {last + title}
  {
    MergedText(last, title);
    LineOfLineLike(last + title);
  }

  lemma MergedText(last: string, title: string)
    requires LineLike(last) && LineLike(title) && last != title
    ensures Reconcile(Some(last), Some([title + ".mp4"])) == last + title + "\n"
  {
    LineSetSingle(last);
    SingleCandidate(LineSet(last), title);
    assert AppendText([title]) == title + "\n";
  }

  lemma LineSetSingle(line: string)
    requires LineLike(line)
    ensures LineSet(line) == {line}
  {
    SplitWithoutSeparator(line, '\n');
  }

  /** A line-like text followed by a line break is exactly one line. */
  lemma LineOfLineLike(line: string)
    requires '\n' !in line
    ensures LineSet(line + "\n") == if line == "" then {} else {line}
  {
    LineSetNewline(line);
    SplitWithoutSeparator(line, '\n');
  }

  /** A lone `<title>.mp4` file yields its title when it is unknown. */
  lemma SingleCandidate(known: set<string>, title: string)
    requires title != "" && title !in known
    ensures NewEntries(known, [title + ".mp4"]) == [title]
  {
    StemOfCandidate(title, ".mp4");
    LowerExtensions();
    CandidateOfSuffix(title, ".mp4");
  }

  lemma StemOfCandidate(title: string, ext: string)
    requires title != "" && ext in VideoExtensions
    ensures Paths.Stem(title + ext) == title
  {
    var f := title + ext;
    var d := Paths.LastDotIndex(f);
    assert f[|title|] == '.';
    forall j | |title| < j < |f|
      ensures f[j] != '.'
    {
      assert f[j] == ext[j - |title|];
    }
    assert d == |title|;
    assert f != "..";
    assert f[..|title|] == title;
  }

  /** No de-duplication within a batch: `a.mp4` and `a.mkv` both add "a". */
  lemma SameStemTwice(known: set<string>, title: string)
    requires title != "" && title !in known
    ensures NewEntries(known, [title + ".mp4", title + ".mkv"]) == [title, title]
  {
    StemOfCandidate(title, ".mp4");
    StemOfCandidate(title, ".mkv");
    LowerExtensions();
    CandidateOfSuffix(title, ".mp4");
    CandidateOfSuffix(title, ".mkv");
    var f1, f2 := title + ".mp4", title + ".mkv";
    assert [f1, f2][1..] == [f2];
  }

  /** The batch with a line break in front when the ledger is non-empty and
      does not end in one, so that the first new title starts a line. */
  function RepairedAppendText(text: string, entries: seq<string>): (r: string)
    ensures Terminated(text) ==> r == AppendText(entries)
  {
    if entries != [] && !Terminated(text) then "\n" + AppendText(entries) else AppendText(entries)
  }

  /** `generateArchive` with the repaired append. */
  function ReconcileRepaired(ledger: Option<string>, listing: Option<seq<string>>): (after: string)
    ensures ledger.None? && listing.None? ==> after == ""
  {
    var text := if ledger.Some? then ledger.value else "";
    match listing
    case None => text
    case Some(files) => text + RepairedAppendText(text, NewEntries(LineSet(text), files))
  }

  /** A second repaired run over the same directory appends nothing when
      the ledger already knows every candidate's title. */
  lemma RepairedNothingNew(after: string, files: seq<string>)
    requires NewEntries(LineSet(after), files) == []
    ensures ReconcileRepaired(Some(after), Some(files)) == after
  {
    assert RepairedAppendText(after, []) == "";
  }

  /** Restoring a final line break changes no line. */
  lemma LineSetNewline(text: string)
    ensures LineSet(text + "\n") == LineSet(text)
    ensures Terminated(text + "\n")
  {
    assert text + "\n" == text + ['\n'] + "";
    LineSetAround(text, "");
    LineSetEmpty();
  }

  /** The repaired run on an unterminated ledger is the run as written on
      the ledger with its line break restored. */
  lemma RepairedRunUnterminated(text: string, files: seq<string>, entries: seq<string>)
    requires !Terminated(text)
    requires entries == NewEntries(LineSet(text), files) && entries != []
    ensures ReconcileRepaired(Some(text), Some(files)) == (text + "\n") + AppendText(entries)
  {
    var tail := AppendText(entries);
    assert RepairedAppendText(text, entries) == "\n" + tail;
    assert text + ("\n" + tail) == (text + "\n") + tail;
  }

  /** With the repaired append, on any ledger: the old lines all stay lines,
      the new titles become lines, and a second run appends nothing. */
  lemma RepairedIdempotent(text: string, files: seq<string>)
    requires LineLikeTitles(files)
    ensures var after := ReconcileRepaired(Some(text), Some(files));
      && StartsWith(after, text)
      && LineSet(after) == LineSet(text) + set t | t in NewEntries(LineSet(text), files)
      && ReconcileRepaired(Some(after), Some(files)) == after
  {
    var entries := NewEntries(LineSet(text), files);
    var after := ReconcileRepaired(Some(text), Some(files));
    assert after[..|text|] == text;
    if Terminated(text) {
      KnownAfterRun(text, files, after);
    } else if entries == [] {
      assert after == text + "";
      RepairedNothingNew(text, files);
    } else {
      RepairedRunUnterminated(text, files, entries);
      LineSetNewline(text);
      assert after == (text + "\n") + AppendText(NewEntries(LineSet(text + "\n"), files));
      KnownAfterRun(text + "\n", files, after);
    }
    RepairedNothingNew(after, files);
  }
}
