/**
 * The video catalog (the CSV of the channel's videos) as the reconciliation
 * passes and the download filter see it: title normalisation, the
 * position-wise fuzzy title matcher, the lookup of a catalog row by title and
 * the recovery of a title from an artifact's file name.
 */
module Catalog {
  import opened Wrappers
  import opened Text

  /** One catalog row: the two columns the modelled code reads. */
  datatype Video = Video(title: string, publishedDate: string)

  /** No two consecutive spaces. */
  predicate NoDoubleSpace(s: string) {
    forall i :: 0 <= i < |s| - 1 ==> !(s[i] == ' ' && s[i + 1] == ' ')
  }

  /** `s` with every space removed. */
  function WithoutSpaces(s: string): (r: string)
    ensures ' ' !in r
  {
    if s == [] then [] else (if s[0] == ' ' then [] else [s[0]]) + WithoutSpaces(s[1..])
  }

  /**
   * pandas `str.replace(' +', ' ', regex=True)`: every run of spaces becomes a
   * single space. A space followed by another space is dropped, so the last
   * space of each run survives.
   */
  function CollapseSpaces(s: string): (r: string)
    ensures NoDoubleSpace(r)
    ensures s != [] ==> r != [] && r[0] == s[0]
    ensures forall c :: c in r ==> c in s
    decreases |s|
  {
    if |s| < 2 then s
    else if s[0] == ' ' && s[1] == ' ' then CollapseSpaces(s[1..])
    else [s[0]] + CollapseSpaces(s[1..])
  }

  /** Collapsing keeps every character other than a space, in order. */
  lemma {:induction false} CollapseKeepsText(s: string)
    ensures WithoutSpaces(CollapseSpaces(s)) == WithoutSpaces(s)
    decreases |s|
  {
    if |s| >= 2 {
      CollapseKeepsText(s[1..]);
      if !(s[0] == ' ' && s[1] == ' ') {
        assert ([s[0]] + CollapseSpaces(s[1..]))[1..] == CollapseSpaces(s[1..]);
      }
    }
  }

  /** `n` spaces. */
  function Spaces(n: nat): (r: string)
    ensures |r| == n && forall i :: 0 <= i < n ==> r[i] == ' '
  {
    seq(n, _ => ' ')
  }

  /** Collapsing distributes over a concatenation whose seam is not between two spaces. */
  lemma {:induction false} CollapseAppend(a: string, b: string)
    requires a == [] || b == [] || a[|a| - 1] != ' ' || b[0] != ' '
    ensures CollapseSpaces(a + b) == CollapseSpaces(a) + CollapseSpaces(b)
    decreases |a|
  {
    if a == [] {
      assert a + b == b;
    } else if b == [] {
      assert a + b == a;
    } else if |a| == 1 {
      assert (a + b)[1..] == b;
    } else {
      assert (a + b)[1..] == a[1..] + b;
      CollapseAppend(a[1..], b);
      if !(a[0] == ' ' && a[1] == ' ') {
        ConcatAssoc([a[0]], CollapseSpaces(a[1..]), CollapseSpaces(b));
      }
    }
  }

  /** A run of spaces collapses to one space. */
  lemma {:induction false} CollapseRun(n: nat)
    requires n >= 1
    ensures CollapseSpaces(Spaces(n)) == " "
    decreases n
  {
    if n >= 2 {
      assert Spaces(n)[1..] == Spaces(n - 1);
      CollapseRun(n - 1);
    }
  }

  /**
   * Two characters other than a space that are separated by a run of spaces
   * are separated by exactly one space afterwards, and what lies on either
   * side is collapsed on its own.
   */
  lemma CollapseSeparates(a: string, x: char, n: nat, y: char, b: string)
    requires x != ' ' && y != ' ' && n >= 1
    ensures CollapseSpaces(a + [x] + Spaces(n) + [y] + b) == CollapseSpaces(a) + [x, ' ', y] + CollapseSpaces(b)
  {
    var left, right := a + [x], Spaces(n) + ([y] + b);
    assert a + [x] + Spaces(n) + [y] + b == left + right;
    CollapseAppend(left, right);
    CollapseAppend(a, [x]);
    CollapseRunThen(n, y, b);
    ConcatAssoc(CollapseSpaces(a), [x], [' ', y] + CollapseSpaces(b));
  }

  lemma CollapseRunThen(n: nat, y: char, b: string)
    requires y != ' ' && n >= 1
    ensures CollapseSpaces(Spaces(n) + ([y] + b)) == [' ', y] + CollapseSpaces(b)
  {
    var r := [y] + b;
    CollapseAppend([y], b);
    assert CollapseSpaces([y]) == [y];
    assert r[0] == y;
    CollapseAppend(Spaces(n), r);
    CollapseRun(n);
    assert CollapseSpaces(Spaces(n) + r) == [' '] + ([y] + CollapseSpaces(b));
    ConcatAssoc([' '], [y], CollapseSpaces(b));
  }

  /** Collapsing `c` in front of `x` depends on `x` only through the collapse of `x`. */
  lemma CollapseCons(c: char, x: string)
    ensures var cx := CollapseSpaces(x);
      CollapseSpaces([c] + x) == if c == ' ' && cx != [] && cx[0] == ' ' then cx else [c] + cx
  {
    assert ([c] + x)[1..] == x;
  }

  /** A string without a double space is left as it is. */
  lemma {:induction false} CollapseKeepsSingleSpaced(s: string)
    requires NoDoubleSpace(s)
    ensures CollapseSpaces(s) == s
    decreases |s|
  {
    if |s| >= 2 {
      assert !(s[0] == ' ' && s[1] == ' ');
      CollapseKeepsSingleSpaced(s[1..]);
      assert s == [s[0]] + s[1..];
    }
  }

  /** pandas `str.replace('"', '', regex=True)`: every double quote is removed. */
  function DropQuotes(s: string): (r: string)
    ensures '"' !in r
    ensures forall c :: c != '"' ==> (c in r <==> c in s)
    ensures '"' !in s ==> r == s
    decreases |s|
  {
    if s == [] then []
    else
      var rest := DropQuotes(s[1..]);
      assert forall c :: c in s <==> c == s[0] || c in s[1..];
      (if s[0] == '"' then [] else [s[0]]) + rest
  }

  /**
   * The catalog normalisation in the order the code applies it: collapse runs
   * of spaces, then remove double quotes. Removing a quote that stood between
   * two spaces leaves a double space behind.
   */
  function NormalizeTitleAsWritten(s: string): string {
    DropQuotes(CollapseSpaces(s))
  }

  /** The order as written is not idempotent: `a " b` becomes `a  b`, which normalises again to `a b`. */
  lemma NormalizeAsWrittenNotIdempotent()
    ensures NormalizeTitleAsWritten("a \" b") == "a  b"
    ensures !NoDoubleSpace(NormalizeTitleAsWritten("a \" b"))
    ensures NormalizeTitleAsWritten("a  b") == "a b"
  {
    QuoteBetweenSpaces();
    assert "a  b"[1] == ' ' && "a  b"[2] == ' ';
    DoubleSpaceCollapses();
  }

  lemma QuoteBetweenSpaces()
    ensures NormalizeTitleAsWritten("a \" b") == "a  b"
  {
    QuoteBetweenSpacesCollapsed();
    QuoteBetweenSpacesDropped();
  }

  lemma QuoteBetweenSpacesCollapsed()
    ensures CollapseSpaces("a \" b") == "a \" b"
  {
    var s := "a \" b";
    assert NoDoubleSpace(s) by {
      assert s[0] == 'a' && s[1] == ' ' && s[2] == '"' && s[3] == ' ' && s[4] == 'b';
    }
    CollapseKeepsSingleSpaced(s);
  }

  lemma QuoteBetweenSpacesDropped()
    ensures DropQuotes("a \" b") == "a  b"
  {
    LetterQuoteDropped();
    assert "a \" b" == ['a'] + [' ', '"', ' ', 'b'];
    assert "a  b" == ['a'] + [' ', ' ', 'b'];
  }

  lemma LetterQuoteDropped()
    ensures DropQuotes(['a'] + [' ', '"', ' ', 'b']) == ['a'] + [' ', ' ', 'b']
  {
    QuoteThenSpaceDropped();
    DropQuotesCons('a', [' ', '"', ' ', 'b']);
  }

  lemma QuoteThenSpaceDropped()
    ensures DropQuotes([' ', '"', ' ', 'b']) == [' ', ' ', 'b']
  {
    var tail := [' ', 'b'];
    assert '"' !in tail;
    DropQuotesCons('"', tail);
    DropQuotesCons(' ', ['"'] + tail);
    assert [' ', '"', ' ', 'b'] == [' '] + (['"'] + tail);
  }

  lemma DropQuotesCons(c: char, t: string)
    ensures DropQuotes([c] + t) == (if c == '"' then [] else [c]) + DropQuotes(t)
  {
    assert ([c] + t)[1..] == t;
  }

  lemma DoubleSpaceCollapses()
    ensures NormalizeTitleAsWritten("a  b") == "a b"
  {
    var s := "a  b";
    assert s[1..] == "  b" && s[1..][1..] == " b";
    assert CollapseSpaces(" b") == " b";
    assert CollapseSpaces("  b") == " b";
    assert CollapseSpaces(s) == "a b";
    assert "a b"[1..] == " b" && " b"[1..] == "b";
    assert DropQuotes("a b") == "a b";
  }

  /** Dropping the quotes after collapsing gives what dropping them straight away gives, once collapsed again. */
  lemma {:induction false} CollapseBeforeDropIsAbsorbed(s: string)
    ensures CollapseSpaces(DropQuotes(CollapseSpaces(s))) == CollapseSpaces(DropQuotes(s))
    decreases |s|
  {
    if |s| >= 2 {
      CollapseBeforeDropIsAbsorbed(s[1..]);
      if s[0] == ' ' && s[1] == ' ' {
        LeadingDoubleSpace(s);
      } else {
        LeadingKept(s);
      }
    }
  }

  lemma LeadingDoubleSpace(s: string)
    requires |s| >= 2 && s[0] == ' ' && s[1] == ' '
    ensures CollapseSpaces(s) == CollapseSpaces(s[1..])
    ensures CollapseSpaces(DropQuotes(s)) == CollapseSpaces(DropQuotes(s[1..]))
  {
    DropQuotesCons(s[0], s[1..]);
    assert s == [s[0]] + s[1..];
    DropQuotesCons(s[1], s[2..]);
    assert s[1..] == [s[1]] + s[2..];
    var rest := DropQuotes(s[2..]);
    assert DropQuotes(s[1..]) == [' '] + rest;
    assert DropQuotes(s) == [' '] + ([' '] + rest);
    assert ([' '] + ([' '] + rest))[1..] == [' '] + rest;
  }

  lemma LeadingKept(s: string)
    requires |s| >= 2 && !(s[0] == ' ' && s[1] == ' ')
    requires CollapseSpaces(DropQuotes(CollapseSpaces(s[1..]))) == CollapseSpaces(DropQuotes(s[1..]))
    ensures CollapseSpaces(DropQuotes(CollapseSpaces(s))) == CollapseSpaces(DropQuotes(s))
  {
    var x := s[1..];
    var c := CollapseSpaces(x);
    var cs := CollapseSpaces(s);
    assert cs == [s[0]] + c;
    assert s == [s[0]] + x;
    var dcs, ds := DropQuotes(cs), DropQuotes(s);
    DropQuotesCons(s[0], c);
    DropQuotesCons(s[0], x);
    if s[0] == '"' {
      assert dcs == DropQuotes(c) && ds == DropQuotes(x);
    } else {
      assert dcs == [s[0]] + DropQuotes(c) && ds == [s[0]] + DropQuotes(x);
      CollapseConsCongruent(s[0], DropQuotes(c), DropQuotes(x));
    }
  }

  lemma CollapseConsCongruent(c: char, u: string, v: string)
    requires CollapseSpaces(u) == CollapseSpaces(v)
    ensures CollapseSpaces([c] + u) == CollapseSpaces([c] + v)
  {
    CollapseCons(c, u);
    CollapseCons(c, v);
  }

  /**
   * Applying the normalisation as written twice gives the normalisation in the
   * intended order: the second application removes the double spaces the
   * first one left behind.
   */
  lemma AsWrittenTwiceIsNormalized(s: string)
    ensures NormalizeTitleAsWritten(NormalizeTitleAsWritten(s)) == NormalizeTitle(s)
  {
    var once := NormalizeTitleAsWritten(s);
    assert '"' !in CollapseSpaces(once);
    CollapseBeforeDropIsAbsorbed(s);
  }

  /** The catalog normalisation with the two steps in the evidently intended order. */
  function NormalizeTitle(s: string): (r: string)
    ensures '"' !in r && NoDoubleSpace(r)
  {
    CollapseSpaces(DropQuotes(s))
  }

  /** A normalised title is its own normalisation. */
  lemma NormalizeTitleIdempotent(s: string)
    ensures NormalizeTitle(NormalizeTitle(s)) == NormalizeTitle(s)
  {
    var n := NormalizeTitle(s);
    assert DropQuotes(n) == n;
    CollapseKeepsSingleSpaced(n);
  }

  /** The titles column of the catalog. */
  function Titles(rows: seq<Video>): (ts: seq<string>)
    ensures |ts| == |rows| && forall i :: 0 <= i < |rows| ==> ts[i] == rows[i].title
  {
    seq(|rows|, i requires 0 <= i < |rows| => rows[i].title)
  }

  /** The catalog after both replacements have been applied to the title column, in the code's order. */
  function NormalizeCatalog(rows: seq<Video>): (r: seq<Video>)
    ensures |r| == |rows|
    ensures forall i :: 0 <= i < |rows| ==>
      r[i] == rows[i].(title := NormalizeTitleAsWritten(rows[i].title)) && '"' !in r[i].title
  {
    seq(|rows|, i requires 0 <= i < |rows| => rows[i].(title := NormalizeTitleAsWritten(rows[i].title)))
  }

  /**
   * The catalog normalisation as written is not idempotent, but it settles
   * after two applications: the second gives every title its normalisation in
   * the intended order, and a third changes nothing.
   */
  lemma NormalizeCatalogSettles(rows: seq<Video>)
    ensures var twice := NormalizeCatalog(NormalizeCatalog(rows));
      (forall i :: 0 <= i < |rows| ==> twice[i] == rows[i].(title := NormalizeTitle(rows[i].title))) &&
      NormalizeCatalog(twice) == twice
  {
    var twice := NormalizeCatalog(NormalizeCatalog(rows));
    forall i | 0 <= i < |rows| ensures twice[i] == rows[i].(title := NormalizeTitle(rows[i].title)) {
      AsWrittenTwiceIsNormalized(rows[i].title);
    }
    forall i | 0 <= i < |rows| ensures NormalizeCatalog(twice)[i] == twice[i] {
      var n := NormalizeTitle(rows[i].title);
      AsWrittenTwiceIsNormalized(n);
      NormalizeTitleIdempotent(rows[i].title);
      NormalizeTitleIdempotent(n);
    }
  }

  // ---------------------------------------------------------------------
  // The fuzzy matcher

  /** The number of positions, up to the shorter length, where the two strings agree. */
  function Overlap(a: string, b: string): (n: nat)
    ensures n <= |a| && n <= |b|
    decreases |a|
  {
    if a == [] || b == [] then 0
    else (if a[0] == b[0] then 1 else 0) + Overlap(a[1..], b[1..])
  }

  /** A string reaches its full length in score exactly against the strings that start with it. */
  lemma {:induction false} OverlapFull(a: string, b: string)
    ensures Overlap(a, b) == |a| <==> StartsWith(b, a)
    decreases |a|
  {
    if a != [] && b != [] {
      OverlapFull(a[1..], b[1..]);
      if a[0] == b[0] && StartsWith(b[1..], a[1..]) {
        assert b[..|a|] == [b[0]] + b[1..][..|a| - 1];
      }
      if StartsWith(b, a) {
        assert b[1..][..|a| - 1] == b[..|a|][1..];
      }
    }
  }

  /**
   * The state of the matcher loop after the titles seen so far: the best title
   * and the score that last replaced it. Only a strictly greater score replaces
   * the current best, and the initial score is 0.
   */
  function Scan(t: string, titles: seq<string>): (st: (Option<string>, nat))
    decreases |titles|
  {
    if titles == [] then (None, 0)
    else
      var prev := Scan(t, titles[..|titles| - 1]);
      var o := Overlap(t, titles[|titles| - 1]);
      if o > prev.1 then (Some(titles[|titles| - 1]), o) else prev
  }

  /** The title `find_closest_match` returns. */
  function BestMatch(t: string, titles: seq<string>): Option<string> {
    Scan(t, titles).0
  }

  /** `k` holds the first title in list order that reaches the highest positive score. */
  predicate FirstMaximal(t: string, titles: seq<string>, k: int) {
    0 <= k < |titles| && Overlap(t, titles[k]) > 0 &&
    (forall j :: 0 <= j < |titles| ==> Overlap(t, titles[j]) <= Overlap(t, titles[k])) &&
    (forall j :: 0 <= j < k ==> Overlap(t, titles[j]) < Overlap(t, titles[k]))
  }

  /** What the scan promises about its state after a list of titles. */
  ghost predicate ScanSound(t: string, titles: seq<string>) {
    (forall j :: 0 <= j < |titles| ==> Overlap(t, titles[j]) <= Scan(t, titles).1) &&
    (Scan(t, titles).0 == None <==> Scan(t, titles).1 == 0) &&
    (Scan(t, titles).0.Some? ==>
      exists k :: FirstMaximal(t, titles, k) && titles[k] == Scan(t, titles).0.value && Overlap(t, titles[k]) == Scan(t, titles).1)
  }

  lemma {:induction false} ScanSpec(t: string, titles: seq<string>)
    ensures forall j :: 0 <= j < |titles| ==> Overlap(t, titles[j]) <= Scan(t, titles).1
    ensures Scan(t, titles).0 == None <==> Scan(t, titles).1 == 0
    ensures Scan(t, titles).0.Some? ==>
      exists k :: FirstMaximal(t, titles, k) && titles[k] == Scan(t, titles).0.value && Overlap(t, titles[k]) == Scan(t, titles).1
    decreases |titles|
  {
    if titles != [] {
      ScanSpec(t, titles[..|titles| - 1]);
      if Overlap(t, titles[|titles| - 1]) > Scan(t, titles[..|titles| - 1]).1 {
        ScanReplaces(t, titles);
      } else {
        ScanKeeps(t, titles);
      }
    }
  }

  /** A title that beats the best score so far becomes the best. */
  lemma ScanReplaces(t: string, titles: seq<string>)
    requires titles != [] && ScanSound(t, titles[..|titles| - 1])
    requires Overlap(t, titles[|titles| - 1]) > Scan(t, titles[..|titles| - 1]).1
    ensures ScanSound(t, titles)
  {
    var init := titles[..|titles| - 1];
    assert forall j :: 0 <= j < |init| ==> titles[j] == init[j];
    assert FirstMaximal(t, titles, |titles| - 1);
  }

  /** A title that does not beat the best score so far leaves it in place. */
  lemma ScanKeeps(t: string, titles: seq<string>)
    requires titles != [] && ScanSound(t, titles[..|titles| - 1])
    requires Overlap(t, titles[|titles| - 1]) <= Scan(t, titles[..|titles| - 1]).1
    ensures ScanSound(t, titles)
  {
    var init := titles[..|titles| - 1];
    var prev := Scan(t, init);
    assert Scan(t, titles) == prev;
    forall j | 0 <= j < |titles| ensures Overlap(t, titles[j]) <= prev.1 {
      if j < |init| {
        assert titles[j] == init[j];
      }
    }
    if prev.0.Some? {
      var k :| FirstMaximal(t, init, k) && init[k] == prev.0.value && Overlap(t, init[k]) == prev.1;
      assert titles[k] == init[k];
      forall j | 0 <= j < k ensures Overlap(t, titles[j]) < Overlap(t, titles[k]) {
        assert titles[j] == init[j];
      }
      assert FirstMaximal(t, titles, k);
    }
  }

  /**
   * The matcher returns the first title in list order that reaches the maximum
   * score, and nothing when the list is empty or no title scores above 0.
   */
  lemma BestMatchSpec(t: string, titles: seq<string>)
    ensures BestMatch(t, titles) == None <==> forall j :: 0 <= j < |titles| ==> Overlap(t, titles[j]) == 0
    ensures BestMatch(t, titles).Some? ==>
      exists k :: FirstMaximal(t, titles, k) && BestMatch(t, titles).value == titles[k]
  {
    ScanSpec(t, titles);
    if BestMatch(t, titles).Some? {
      var k :| FirstMaximal(t, titles, k) && titles[k] == BestMatch(t, titles).value;
    }
  }

  /**
   * A non-empty title that is in the list is always matched, and the match
   * starts with it: it is the title itself or a longer one that comes earlier.
   */
  lemma ExactTitleMatchesPrefix(t: string, titles: seq<string>)
    requires t != [] && t in titles
    ensures BestMatch(t, titles).Some? && StartsWith(BestMatch(t, titles).value, t)
  {
    ScanSpec(t, titles);
    var i :| 0 <= i < |titles| && titles[i] == t;
    OverlapFull(t, t);
    var k :| FirstMaximal(t, titles, k) && titles[k] == BestMatch(t, titles).value;
    assert Overlap(t, titles[k]) == |t|;
    OverlapFull(t, titles[k]);
  }

  /** An exact title loses to an earlier, longer title that starts with it. */
  lemma ExactTitleCanLose()
    ensures BestMatch("ab", ["abc", "ab"]) == Some("abc")
  {
    assert ["abc", "ab"][..1] == ["abc"];
    assert ["abc"][..0] == [];
  }

  /** `find_closest_match`: one pass over the titles keeping the best score so far. */
  method FindClosestMatch(videoTitle: string, titles: seq<string>) returns (best: Option<string>)
    ensures best == BestMatch(videoTitle, titles)
  {
    var maxOverlap := 0;
    best := None;
    for i := 0 to |titles|
      invariant (best, maxOverlap) == Scan(videoTitle, titles[..i])
    {
      assert titles[..i + 1][..i] == titles[..i];
      var overlap := Overlap(videoTitle, titles[i]);
      if overlap > maxOverlap {
        maxOverlap := overlap;
        best := Some(titles[i]);
      }
    }
    assert titles[..|titles|] == titles;
  }

  /** The index of the first row carrying title `t`, or -1. */
  function FirstIndexWithTitle(rows: seq<Video>, t: string): (i: int)
    ensures -1 <= i < |rows|
    ensures i >= 0 ==> rows[i].title == t
    ensures forall j :: 0 <= j < |rows| && (i < 0 || j < i) ==> rows[j].title != t
    decreases |rows|
  {
    if rows == [] then -1
    else if rows[0].title == t then 0
    else var k := FirstIndexWithTitle(rows[1..], t); if k < 0 then -1 else k + 1
  }

  /** `df[df['title'] == t].iloc[0]`: the first row carrying title `t`; nothing for a missing title or `None`. */
  function FirstWithTitle(rows: seq<Video>, t: Option<string>): (r: Option<Video>)
    ensures r.Some? <==> t.Some? && t.value in Titles(rows)
    ensures r.Some? ==>
      exists i :: 0 <= i < |rows| && rows[i] == r.value && rows[i].title == t.value && forall j :: 0 <= j < i ==> rows[j].title != t.value
  {
    if t.None? then None
    else
      var i := FirstIndexWithTitle(rows, t.value);
      if i < 0 then None else Some(rows[i])
  }

  /** A title the matcher returns always has a catalog row. */
  lemma MatchHasRow(t: string, rows: seq<Video>)
    ensures BestMatch(t, Titles(rows)).Some? ==> FirstWithTitle(rows, BestMatch(t, Titles(rows))).Some?
  {
    BestMatchSpec(t, Titles(rows));
  }

  // ---------------------------------------------------------------------
  // Titles recovered from artifact names

  /** Python's `name.replace('  ', ' ').strip()` applied to a candidate title. */
  function Tidy(name: string): string {
    Strip(ReplaceAll(name, "  ", " "))
  }

  /** The title the mp3 pass reads off a file name: everything before the last `.`, tidied. */
  function Mp3Title(fileName: string): string {
    Tidy(BeforeLast(fileName, '.'))
  }

  /** The title the txt and json passes read off a file name: the suffix removed everywhere, then as for mp3. */
  function ArtifactTitle(fileName: string, suffix: string): string
    requires suffix != []
  {
    Tidy(BeforeLast(ReplaceAll(fileName, suffix, ""), '.'))
  }

  /** The titles the recovery gives back unchanged. */
  predicate TidyTitle(t: string) {
    '.' !in t && NoDoubleSpace(t) && (t == [] || (!IsSpace(t[0]) && !IsSpace(t[|t| - 1])))
  }

  lemma TidyKeeps(t: string)
    requires NoDoubleSpace(t) && (t == [] || (!IsSpace(t[0]) && !IsSpace(t[|t| - 1])))
    ensures Tidy(t) == t
  {
    forall i ensures !OccursAt(t, "  ", i) {
      if 0 <= i && i + 2 <= |t| {
        assert t[i..i + 2][0] == t[i] && t[i..i + 2][1] == t[i + 1];
      }
    }
    ContainsIffOccurs(t, "  ");
    ReplaceAbsent(t, "  ", " ");
  }

  lemma BeforeLastDot(t: string, ext: string)
    requires '.' !in t && |ext| >= 1 && ext[0] == '.' && '.' !in ext[1..]
    ensures BeforeLast(t + ext, '.') == t
  {
    var s := t + ext;
    var i := LastIndexOf(s, '.');
    assert s[|t|] == '.';
    assert forall j :: |t| < j < |s| ==> s[j] == ext[1..][j - |t| - 1];
    assert i == |t|;
    assert s[..i] == t;
  }

  /** The mp3 pass recovers a tidy title from the file name the pipeline gives it. */
  lemma Mp3TitleRoundTrip(t: string)
    requires TidyTitle(t)
    ensures Mp3Title(t + ".mp3") == t
  {
    BeforeLastDot(t, ".mp3");
    TidyKeeps(t);
  }

  /** The only `.` of `t + suffix` is the suffix's own, so the suffix occurs only at the end. */
  lemma {:induction false} RemoveSuffixOnce(t: string, suffix: string, d: nat)
    requires '.' !in t && d < |suffix| && suffix[d] == '.' && '.' !in suffix[..d] && '.' !in suffix[d + 1..]
    ensures ReplaceAll(t + suffix, suffix, "") == t
    decreases |t|
  {
    var s := t + suffix;
    if t == [] {
      assert s[..|suffix|] == suffix;
      assert s[|suffix|..] == [];
    } else {
      if d < |t| {
        assert s[d] == t[d];
      } else {
        assert s[d] == suffix[..d][d - |t|];
      }
      assert s[..|suffix|] != suffix;
      assert s[1..] == t[1..] + suffix;
      RemoveSuffixOnce(t[1..], suffix, d);
      assert [s[0]] + t[1..] == t;
    }
  }

  /** The txt and json passes recover a tidy title from the file name the pipeline gives it. */
  lemma ArtifactTitleRoundTrip(t: string, suffix: string, d: nat)
    requires TidyTitle(t)
    requires d < |suffix| && suffix[d] == '.' && '.' !in suffix[..d] && '.' !in suffix[d + 1..]
    ensures ArtifactTitle(t + suffix, suffix) == t
  {
    RemoveSuffixOnce(t, suffix, d);
    assert BeforeLast(t, '.') == t by { assert LastIndexOf(t, '.') < 0; }
    TidyKeeps(t);
  }

  /** A title with a `.` in it is cut at its last `.`, so recovering it twice shortens it again. */
  lemma DottedTitleIsCut()
    ensures Mp3Title("Ep. 5.mp3") == "Ep. 5"
    ensures Mp3Title("Ep. 5") == "Ep"
  {
    CutAtExtension();
    CutAtInnerDot();
  }

  lemma CutAtExtension()
    ensures Mp3Title("Ep. 5.mp3") == "Ep. 5"
  {
    var s := "Ep. 5.mp3";
    var t := "Ep. 5";
    var s8, s7, s6 := s[..8], s[..7], s[..6];
    assert s[8] == '3' && s8[7] == 'p' && s7[6] == 'm' && s6[5] == '.';
    assert s8[..7] == s7 && s7[..6] == s6;
    assert LastIndexOf(s6, '.') == 5;
    assert LastIndexOf(s7, '.') == 5;
    assert LastIndexOf(s8, '.') == 5;
    assert LastIndexOf(s, '.') == 5;
    assert s[..5] == t;
    assert NoDoubleSpace(t) by {
      assert t[0] == 'E' && t[1] == 'p' && t[2] == '.' && t[3] == ' ' && t[4] == '5';
    }
    TidyKeeps(t);
  }

  lemma CutAtInnerDot()
    ensures Mp3Title("Ep. 5") == "Ep"
  {
    var t := "Ep. 5";
    assert t[..4] == "Ep. " && t[..3] == "Ep.";
    assert LastIndexOf(t, '.') == 2;
    assert t[..2] == "Ep";
    TidyKeeps("Ep");
  }
}
