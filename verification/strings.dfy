/** String helpers shared by the feed builder, the stream handler and the
    archive ledger: JavaScript's `split` with a one-character separator,
    `join`, `endsWith`, `includes` and a first-occurrence `replace`. */
module Strings {

  /** `s.split(sep)` for a one-character separator: the maximal pieces of
      `s` between occurrences of `sep`; always at least one piece. */
  function Split(s: string, sep: char): (parts: seq<string>)
    ensures |parts| >= 1
    decreases |s|
  {
    if |s| == 0 then [""]
    else
      var rest := Split(s[1..], sep);
      if s[0] == sep then [""] + rest
      else [[s[0]] + rest[0]] + rest[1..]
  }

  /** `parts.join(sep)`. */
  function Join(parts: seq<string>, sep: string): string
    decreases |parts|
  {
    if |parts| == 0 then ""
    else if |parts| == 1 then parts[0]
    else parts[0] + sep + Join(parts[1..], sep)
  }

  predicate EndsWith(s: string, suffix: string)
  {
    |suffix| <= |s| && s[|s| - |suffix|..] == suffix
  }

  predicate StartsWith(s: string, prefix: string)
  {
    |prefix| <= |s| && s[..|prefix|] == prefix
  }

  /** `s.includes(sub)`: some position of `s` starts an occurrence of `sub`. */
  predicate Contains(s: string, sub: string)
  {
    exists i :: 0 <= i <= |s| && StartsWith(s[i..], sub)
  }

  /** `sub` occupies the positions `i` to `i + |sub|` of `s`. */
  predicate OccursAt(s: string, i: nat, sub: string)
  {
    i + |sub| <= |s| && s[i..i + |sub|] == sub
  }

  /** `includes` is an occurrence somewhere in the text. */
  lemma ContainsOccurs(s: string, sub: string)
    ensures Contains(s, sub) <==> exists i: nat :: OccursAt(s, i, sub)
  {
    if Contains(s, sub) {
      var i :| 0 <= i <= |s| && StartsWith(s[i..], sub);
      assert s[i..i + |sub|] == s[i..][..|sub|];
      assert OccursAt(s, i, sub);
    }
    if exists i: nat :: OccursAt(s, i, sub) {
      var i: nat :| OccursAt(s, i, sub);
      assert s[i..][..|sub|] == s[i..i + |sub|];
      assert StartsWith(s[i..], sub);
    }
  }

  /** `s.replace(pat, rep)` with a literal, non-empty pattern: only the
      leftmost occurrence is replaced. */
  function ReplaceFirst(s: string, pat: string, rep: string): (r: string)
    requires |pat| > 0
    decreases |s|
  {
    if StartsWith(s, pat) then rep + s[|pat|..]
    else if |s| == 0 then s
    else [s[0]] + ReplaceFirst(s[1..], pat, rep)
  }

  /** No piece produced by `Split` contains the separator. */
  lemma {:induction false} SplitPiecesLackSeparator(s: string, sep: char)
    ensures forall i :: 0 <= i < |Split(s, sep)| ==> sep !in Split(s, sep)[i]
    decreases |s|
  {
    if |s| > 0 {
      SplitPiecesLackSeparator(s[1..], sep);
    }
  }

  /** A string without the separator splits into itself alone. */
  lemma {:induction false} SplitWithoutSeparator(s: string, sep: char)
    requires sep !in s
    ensures Split(s, sep) == [s]
    decreases |s|
  {
    if |s| > 0 {
      assert sep !in s[1..];
      SplitWithoutSeparator(s[1..], sep);
      assert [s[0]] + s[1..] == s;
    }
  }

  /** `Split` on a string with a known first character. */
  lemma SplitCons(c: char, t: string, sep: char)
    ensures Split([c] + t, sep)
            == if c == sep then [""] + Split(t, sep) else [[c] + Split(t, sep)[0]] + Split(t, sep)[1..]
  {
    assert ([c] + t)[0] == c && ([c] + t)[1..] == t;
  }

  /** Splitting distributes over a separator occurrence. */
  lemma {:induction false} SplitAround(a: string, sep: char, b: string)
    ensures Split(a + [sep] + b, sep) == Split(a, sep) + Split(b, sep)
    decreases |a|
  {
    if |a| == 0 {
      SplitAroundEmpty(a, sep, b);
    } else {
      SplitAround(a[1..], sep, b);
      SplitAroundStep(a, sep, b);
    }
  }

  lemma SplitAroundEmpty(a: string, sep: char, b: string)
    requires |a| == 0
    ensures Split(a + [sep] + b, sep) == Split(a, sep) + Split(b, sep)
  {
    assert a + [sep] + b == [sep] + b;
    assert ([sep] + b)[1..] == b;
  }

  /** One character more in front of the separator. */
  lemma SplitAroundStep(a: string, sep: char, b: string)
    requires |a| > 0
    requires Split(a[1..] + [sep] + b, sep) == Split(a[1..], sep) + Split(b, sep)
    ensures Split(a + [sep] + b, sep) == Split(a, sep) + Split(b, sep)
  {
    var s := a + [sep] + b;
    assert s[0] == a[0] && s[1..] == a[1..] + [sep] + b;
    if a[0] == sep {
      SplitAroundSep(a, s, sep, Split(a[1..], sep), Split(b, sep));
    } else {
      SplitAroundOther(a, s, sep, Split(a[1..], sep), Split(b, sep));
    }
  }

  lemma SplitAroundSep(a: string, s: string, sep: char, x: seq<string>, t: seq<string>)
    requires |a| > 0 && |s| > 0 && a[0] == sep && s[0] == sep
    requires Split(a[1..], sep) == x && Split(s[1..], sep) == x + t
    ensures Split(s, sep) == Split(a, sep) + t
  {
  }

  lemma SplitAroundOther(a: string, s: string, sep: char, x: seq<string>, t: seq<string>)
    requires |a| > 0 && |s| > 0 && a[0] != sep && s[0] == a[0]
    requires Split(a[1..], sep) == x && Split(s[1..], sep) == x + t
    ensures Split(s, sep) == Split(a, sep) + t
  {
    assert Split(s, sep) == [[s[0]] + Split(s[1..], sep)[0]] + Split(s[1..], sep)[1..];
    assert Split(a, sep) == [[a[0]] + Split(a[1..], sep)[0]] + Split(a[1..], sep)[1..];
    ConsAssoc(a[0], x, t);
  }

  lemma ConsAssoc(c: char, x: seq<string>, t: seq<string>)
    requires |x| >= 1
    ensures [[c] + (x + t)[0]] + (x + t)[1..] == ([[c] + x[0]] + x[1..]) + t
  {
    ConsHead(x, t);
  }

  lemma ConsHead(head: seq<string>, tail: seq<string>)
    requires |head| >= 1
    ensures (head + tail)[0] == head[0] && (head + tail)[1..] == head[1..] + tail
  {
  }

  /** Joining the pieces of a split with the separator gives back the string. */
  lemma {:induction false} JoinSplit(s: string, sep: char)
    ensures Join(Split(s, sep), [sep]) == s
    decreases |s|
  {
    if |s| > 0 {
      var rest := Split(s[1..], sep);
      JoinSplit(s[1..], sep);
      if s[0] == sep {
        assert Split(s, sep) == [""] + rest;
        assert ([""] + rest)[1..] == rest;
      } else {
        var parts := Split(s, sep);
        assert parts == [[s[0]] + rest[0]] + rest[1..];
        if |rest| == 1 {
          assert [s[0]] + s[1..] == s;
        } else {
          assert parts[1..] == rest[1..];
          assert Join(rest, [sep]) == rest[0] + [sep] + Join(rest[1..], [sep]);
          assert [s[0]] + s[1..] == s;
        }
      }
    }
  }

  /** Splitting a join of separator-free pieces gives back the pieces. */
  lemma {:induction false} SplitJoin(parts: seq<string>, sep: char)
    requires |parts| >= 1
    requires forall i :: 0 <= i < |parts| ==> sep !in parts[i]
    ensures Split(Join(parts, [sep]), sep) == parts
    decreases |parts|
  {
    if |parts| == 1 {
      SplitWithoutSeparator(parts[0], sep);
    } else {
      SplitJoin(parts[1..], sep);
      SplitWithoutSeparator(parts[0], sep);
      SplitAround(parts[0], sep, Join(parts[1..], [sep]));
      assert [parts[0]] + parts[1..] == parts;
    }
  }

  /** Joining two non-empty lists of pieces puts one separator between them. */
  lemma {:induction false} JoinAppend(a: seq<string>, b: seq<string>, sep: string)
    requires |a| >= 1 && |b| >= 1
    ensures Join(a + b, sep) == Join(a, sep) + sep + Join(b, sep)
    decreases |a|
  {
    if |a| == 1 {
      assert (a + b)[1..] == b;
    } else {
      assert (a + b)[1..] == a[1..] + b;
      JoinAppend(a[1..], b, sep);
    }
  }

  /** Index of the first `c` in `s`, or `|s|` when there is none. */
  function IndexOf<T(==)>(s: seq<T>, c: T): (k: nat)
    ensures k <= |s|
    ensures k < |s| ==> s[k] == c
    ensures forall i :: 0 <= i < k ==> s[i] != c
    decreases |s|
  {
    if |s| == 0 then 0
    else if s[0] == c then 0
    else 1 + IndexOf(s[1..], c)
  }

  /** The first `c` after a word free of `c` is the one right after the word. */
  lemma {:induction false} IndexOfAfterWord(w: string, c: char, r: string)
    requires c !in w
    ensures IndexOf(w + [c] + r, c) == |w|
    decreases |w|
  {
    if |w| > 0 {
      assert (w + [c] + r)[1..] == w[1..] + [c] + r;
      IndexOfAfterWord(w[1..], c, r);
    }
  }

  /** If two strings, each led by a word without `c` and then `c`, are equal,
      the words agree and so do the rests. */
  lemma SeparatedPrefixUnique(w1: string, r1: string, w2: string, r2: string, c: char)
    requires c !in w1 && c !in w2
    requires w1 + [c] + r1 == w2 + [c] + r2
    ensures w1 == w2 && r1 == r2
  {
    var s := w1 + [c] + r1;
    IndexOfAfterWord(w1, c, r1);
    IndexOfAfterWord(w2, c, r2);
    assert w1 == s[..|w1|] == w2;
    assert r1 == s[|w1| + 1..] == r2;
  }
}
