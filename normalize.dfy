/** Filename normalisation: `deLeet`, `getNormalizedKey` and
    `getDisplayTitle`. The two regular expressions
    `^(.+?)(?=\s+(s\d{2}|19\d{2}|20\d{2}|4k|1080p|720p))` and
    `^(.+?)(?=\s+s\d{2})` (both case-insensitive) are modelled by hand: the
    lazy group ends at the smallest index `i >= 1` such that no line
    terminator occurs before `i`, `clean[i]` is whitespace and a marker
    begins right after that whitespace run. */
module Normalize {
  import opened Strings

  /** `.`, `_` and whitespace all separate words once cleaned. */
  predicate IsSeparator(c: char) {
    c == '.' || c == '_' || IsSpace(c)
  }

  /** `String(filename || "").replace(/[\._]/g, " ")` */
  function Clean(s: string): (r: string)
    ensures |r| == |s|
    ensures forall i :: 0 <= i < |s| ==> r[i] != '.' && r[i] != '_'
    ensures forall i :: 0 <= i < |s| ==> (s[i] == '.' || s[i] == '_' ==> r[i] == ' ')
    ensures forall i :: 0 <= i < |s| ==> (s[i] != '.' && s[i] != '_' ==> r[i] == s[i])
  {
    seq(|s|, i requires 0 <= i < |s| => if s[i] == '.' || s[i] == '_' then ' ' else s[i])
  }

  /** One `.replace(/from/g, to)` with a one-character pattern. */
  function ReplaceAll(s: string, from: char, to: char): (r: string)
    ensures |r| == |s|
    ensures forall i :: 0 <= i < |s| ==> r[i] == if s[i] == from then to else s[i]
  {
    seq(|s|, i requires 0 <= i < |s| => if s[i] == from then to else s[i])
  }

  /** The characters `deLeet` rewrites. */
  predicate IsLeet(c: char) {
    c == '0' || c == '1' || c == '3' || c == '4' || c == '5' || c == '7' || c == '@'
  }

  /** `deLeet`: the chain of seven global replacements, in the source's order. */
  function DeLeet(s: string): (r: string)
    ensures |r| == |s|
    ensures forall i :: 0 <= i < |s| ==> !IsLeet(r[i])
    ensures forall i :: 0 <= i < |s| ==> !IsLeet(s[i]) ==> r[i] == s[i]
    ensures forall i :: 0 <= i < |s| ==>
      && (s[i] == '0' ==> r[i] == 'o') && (s[i] == '1' ==> r[i] == 'i')
      && (s[i] == '3' ==> r[i] == 'e') && (s[i] == '4' ==> r[i] == 'a')
      && (s[i] == '5' ==> r[i] == 's') && (s[i] == '7' ==> r[i] == 't')
      && (s[i] == '@' ==> r[i] == 'a')
  {
    ReplaceAll(ReplaceAll(ReplaceAll(ReplaceAll(ReplaceAll(ReplaceAll(ReplaceAll(
      s, '0', 'o'), '1', 'i'), '3', 'e'), '4', 'a'), '5', 's'), '7', 't'), '@', 'a')
  }

  /** The two lookaheads: every marker of `getNormalizedKey`, or only the
      season marker of `getDisplayTitle`. */
  datatype Markers = TitleMarkers | SeasonMarker

  /** `s\d{2}`, case-insensitive */
  predicate SeasonAt(s: string, j: nat) {
    j + 3 <= |s| && (s[j] == 's' || s[j] == 'S') && IsDigit(s[j + 1]) && IsDigit(s[j + 2])
  }

  /** `19\d{2}|20\d{2}` */
  predicate YearAt(s: string, j: nat) {
    j + 4 <= |s| && ((s[j] == '1' && s[j + 1] == '9') || (s[j] == '2' && s[j + 1] == '0'))
    && IsDigit(s[j + 2]) && IsDigit(s[j + 3])
  }

  /** `4k|1080p|720p`, case-insensitive */
  predicate QualityAt(s: string, j: nat) {
    (j + 2 <= |s| && s[j] == '4' && (s[j + 1] == 'k' || s[j + 1] == 'K'))
    || (j + 5 <= |s| && s[j] == '1' && s[j + 1] == '0' && s[j + 2] == '8' && s[j + 3] == '0'
        && (s[j + 4] == 'p' || s[j + 4] == 'P'))
    || (j + 4 <= |s| && s[j] == '7' && s[j + 1] == '2' && s[j + 2] == '0'
        && (s[j + 3] == 'p' || s[j + 3] == 'P'))
  }

  predicate MarkerAt(s: string, j: nat, m: Markers) {
    match m
    case SeasonMarker => SeasonAt(s, j)
    case TitleMarkers => SeasonAt(s, j) || YearAt(s, j) || QualityAt(s, j)
  }

  /** Every marker begins with a character that is not whitespace. */
  lemma MarkerStartsWord(s: string, j: nat, m: Markers)
    requires MarkerAt(s, j, m)
    ensures j < |s| && !IsSeparator(s[j])
  {
  }

  /** The end of the whitespace run that starts at `i`. */
  function SpaceRunEnd(s: string, i: nat): (e: nat)
    requires i <= |s|
    ensures i <= e <= |s|
    ensures forall k :: i <= k < e ==> IsSpace(s[k])
    ensures e == |s| || !IsSpace(s[e])
    decreases |s| - i
  {
    if i < |s| && IsSpace(s[i]) then SpaceRunEnd(s, i + 1) else i
  }

  /** The lookahead `(?=\s+(marker))` at index `i`, as a single test. */
  predicate LookaheadAt(s: string, i: nat, m: Markers) {
    i < |s| && IsSpace(s[i]) && MarkerAt(s, SpaceRunEnd(s, i), m)
  }

  predicate AllSpace(s: string, i: nat, j: nat)
    requires i <= j <= |s|
  {
    forall k :: i <= k < j ==> IsSpace(s[k])
  }

  /** The lookahead as the regular expression reads it: some non-empty
      whitespace run `s[i..j]` followed by a marker at `j`. */
  ghost predicate RegexLookahead(s: string, i: nat, m: Markers) {
    exists j: nat :: i < j <= |s| && AllSpace(s, i, j) && MarkerAt(s, j, m)
  }

  /** The single test agrees with the backtracking reading: since no marker
      starts with whitespace, only the whole run can precede it. */
  lemma LookaheadIsRegex(s: string, i: nat, m: Markers)
    ensures LookaheadAt(s, i, m) <==> RegexLookahead(s, i, m)
  {
    if LookaheadAt(s, i, m) {
      var e := SpaceRunEnd(s, i);
      assert i < e <= |s| && AllSpace(s, i, e) && MarkerAt(s, e, m);
    }
    if RegexLookahead(s, i, m) {
      var j: nat :| i < j <= |s| && AllSpace(s, i, j) && MarkerAt(s, j, m);
      MarkerStartsWord(s, j, m);
      SpaceRunEndIsMaximal(s, i, j);
    }
  }

  lemma {:induction false} SpaceRunEndIsMaximal(s: string, i: nat, j: nat)
    requires i <= j < |s| && AllSpace(s, i, j) && !IsSpace(s[j])
    ensures SpaceRunEnd(s, i) == j
    decreases j - i
  {
    if i < j {
      SpaceRunEndIsMaximal(s, i + 1, j);
    }
  }

  /** `(.+?)` can stop at `i`: at least one character and no line terminator. */
  predicate CanEndTitle(s: string, i: int) {
    1 <= i < |s| && forall k :: 0 <= k < i ==> !IsLineTerminator(s[k])
  }

  predicate IsCut(s: string, i: int, m: Markers) {
    CanEndTitle(s, i) && LookaheadAt(s, i, m)
  }

  /** The lazy search of `^(.+?)(?=...)`, trying end positions `i, i+1, ...`. */
  function FirstCutFrom(s: string, i: nat, m: Markers): (r: Option<nat>)
    requires 1 <= i
    requires forall k :: 0 <= k < i - 1 && k < |s| ==> !IsLineTerminator(s[k])
    requires forall j :: 1 <= j < i ==> !IsCut(s, j, m)
    ensures r.Some? ==> IsCut(s, r.value, m) && forall j :: 1 <= j < r.value ==> !IsCut(s, j, m)
    ensures r.None? ==> forall j :: !IsCut(s, j, m)
    decreases |s| - i
  {
    if i >= |s| then None
    else if IsLineTerminator(s[i - 1]) then
      assert forall j :: i <= j ==> !CanEndTitle(s, j);
      None
    else if LookaheadAt(s, i, m) then Some(i)
    else FirstCutFrom(s, i + 1, m)
  }

  /** Where the match ends, if the regular expression matches at all; the
      earliest cut point wins. */
  function FirstCut(s: string, m: Markers): (r: Option<nat>)
    ensures r.Some? ==> IsCut(s, r.value, m) && forall j :: 1 <= j < r.value ==> !IsCut(s, j, m)
    ensures r.None? ==> forall j :: !IsCut(s, j, m)
  {
    FirstCutFrom(s, 1, m)
  }

  /** `match && match[1] ? match[1] : clean` */
  function RawTitle(clean: string, m: Markers): (r: string)
    ensures |r| <= |clean| && r <= clean
    ensures (exists i :: IsCut(clean, i, m)) ==>
      IsCut(clean, |r|, m) && forall j :: 1 <= j < |r| ==> !IsCut(clean, j, m)
    ensures (forall i :: !IsCut(clean, i, m)) ==> r == clean
  {
    match FirstCut(clean, m)
    case Some(i) => clean[..i]
    case None => clean
  }

  /** `[a-z0-9]` */
  predicate IsKeyChar(c: char) {
    ('a' <= c <= 'z') || IsDigit(c)
  }

  /** `.replace(/[^a-z0-9]/g, "")` */
  function KeepKeyChars(s: string): (r: string)
    ensures |r| <= |s|
    ensures forall i :: 0 <= i < |r| ==> IsKeyChar(r[i])
    ensures (forall i :: 0 <= i < |s| ==> IsKeyChar(s[i])) ==> r == s
  {
    if s == [] then []
    else
      var rest := KeepKeyChars(s[1..]);
      if IsKeyChar(s[0]) then [s[0]] + rest else rest
  }

  /** The filter keeps every key character, as often as it occurs, and
      drops all others. */
  lemma {:induction false} KeepKeyCharsCounts(s: string, c: char)
    ensures multiset(KeepKeyChars(s))[c] == if IsKeyChar(c) then multiset(s)[c] else 0
  {
    if s != [] {
      KeepKeyCharsCounts(s[1..], c);
      assert s == [s[0]] + s[1..];
    }
  }

  /** The filter keeps the key characters in their order: it works piece by
      piece, so the result for `a + b` is that for `a` followed by that for `b`. */
  lemma {:induction false} KeepKeyCharsAppend(a: string, b: string)
    ensures KeepKeyChars(a + b) == KeepKeyChars(a) + KeepKeyChars(b)
  {
    if a == [] {
      assert a + b == b;
    } else {
      var t := a[1..];
      var head := if IsKeyChar(a[0]) then [a[0]] else [];
      assert (a + b)[0] == a[0] && (a + b)[1..] == t + b;
      KeepKeyCharsAppend(t, b);
      assert KeepKeyChars(a + b) == head + KeepKeyChars(t + b);
      assert KeepKeyChars(a) == head + KeepKeyChars(t);
    }
  }

  /** The filter only removes characters, so it adds no leet character. */
  lemma {:induction false} KeepKeyCharsNoLeet(s: string)
    requires forall i :: 0 <= i < |s| ==> !IsLeet(s[i])
    ensures forall i :: 0 <= i < |KeepKeyChars(s)| ==> !IsLeet(KeepKeyChars(s)[i])
  {
    if s != [] {
      KeepKeyCharsNoLeet(s[1..]);
    }
  }

  /** The characters a group key can hold: deLeet has removed 0 1 3 4 5 7. */
  predicate IsNormalChar(c: char) {
    ('a' <= c <= 'z') || c == '2' || c == '6' || c == '8' || c == '9'
  }

  /** `getNormalizedKey` */
  function NormalizedKey(filename: string): (r: string)
    ensures forall i :: 0 <= i < |r| ==> IsNormalChar(r[i])
    ensures filename == [] ==> r == []
  {
    var raw := RawTitle(Clean(filename), TitleMarkers);
    var d := DeLeet(raw);
    var low := Lower(d);
    assert forall i :: 0 <= i < |low| ==> !IsLeet(low[i]) by {
      forall i | 0 <= i < |low| ensures !IsLeet(low[i]) {
        LowerKeepsNonLeet(d[i]);
      }
    }
    var r := KeepKeyChars(low);
    KeepKeyCharsNoLeet(low);
    forall i | 0 <= i < |r| ensures IsNormalChar(r[i]) {
      NormalCharOf(r[i]);
    }
    r
  }

  lemma LowerKeepsNonLeet(c: char)
    requires !IsLeet(c)
    ensures !IsLeet(LowerChar(c))
  {
  }

  lemma NormalCharOf(c: char)
    requires IsKeyChar(c) && !IsLeet(c)
    ensures IsNormalChar(c)
  {
  }

  /** A key is a fixed point: it holds no whitespace, so no cut applies, and
      no character that deLeet, lower-casing or the filter would change. */
  lemma NormalizedKeyIdempotent(filename: string)
    ensures NormalizedKey(NormalizedKey(filename)) == NormalizedKey(filename)
  {
    var k := NormalizedKey(filename);
    KeyIsFixed(k);
  }

  /** A string of key characters comes through every step unchanged. */
  lemma KeyIsFixed(k: string)
    requires forall i :: 0 <= i < |k| ==> IsNormalChar(k[i])
    ensures NormalizedKey(k) == k
  {
    assert Clean(k) == k;
    NoSpaceNoCut(k);
    assert RawTitle(k, TitleMarkers) == k;
    assert DeLeet(k) == k;
    assert Lower(k) == k;
    assert forall i :: 0 <= i < |k| ==> IsKeyChar(k[i]);
  }

  /** Without whitespace no lookahead can succeed. */
  lemma NoSpaceNoCut(k: string)
    requires forall i :: 0 <= i < |k| ==> !IsSpace(k[i])
    ensures FirstCut(k, TitleMarkers) == None
  {
  }

  /** A title made of one word (no separator character). */
  predicate IsSingleWord(t: string) {
    t != [] && forall i :: 0 <= i < |t| ==> !IsSeparator(t[i])
  }

  predicate IsSeparatorChar(c: char) {
    c == '.' || c == '_' || c == ' '
  }

  lemma MarkerShift(a: string, b: string, j: nat, m: Markers)
    ensures MarkerAt(a + b, |a| + j, m) <==> MarkerAt(b, j, m)
  {
  }

  lemma MarkerClean(s: string, j: nat, m: Markers)
    ensures MarkerAt(Clean(s), j, m) <==> MarkerAt(s, j, m)
  {
  }

  /** A one-word title followed by a separator and a marker: the key is the
      title alone, de-leeted, lower-cased and filtered. */
  lemma TitleKey(t: string, sep: char, rest: string)
    requires IsSingleWord(t) && IsSeparatorChar(sep)
    requires MarkerAt(rest, 0, TitleMarkers)
    ensures NormalizedKey(t + [sep] + rest) == KeepKeyChars(Lower(DeLeet(t)))
  {
    var f := t + [sep] + rest;
    var c := Clean(f);
    assert c == Clean(t) + [' '] + Clean(rest);
    assert Clean(t) == t;
    MarkerClean(rest, 0, TitleMarkers);
    MarkerStartsWord(Clean(rest), 0, TitleMarkers);
    assert SpaceRunEnd(c, |t|) == |t| + 1 by {
      SpaceRunEndIsMaximal(c, |t|, |t| + 1);
    }
    MarkerShift(t + [' '], Clean(rest), 0, TitleMarkers);
    assert IsCut(c, |t|, TitleMarkers);
    assert forall j :: 0 <= j < |t| ==> !IsSpace(c[j]);
    assert FirstCut(c, TitleMarkers) == Some(|t|);
    assert RawTitle(c, TitleMarkers) == t;
  }

  /** Leetspeak spellings of a title share a key (e.g. "Dar3devil" and
      "Daredevil"), whatever marker-led suffix follows. */
  lemma LeetSpellingsShareKey(t1: string, t2: string, sep: char, rest: string)
    requires IsSingleWord(t1) && IsSingleWord(t2) && IsSeparatorChar(sep)
    requires Lower(DeLeet(t1)) == Lower(DeLeet(t2))
    requires MarkerAt(rest, 0, TitleMarkers)
    ensures NormalizedKey(t1 + [sep] + rest) == NormalizedKey(t2 + [sep] + rest)
  {
    TitleKey(t1, sep, rest);
    TitleKey(t2, sep, rest);
  }

  /** The key ignores everything from the first marker on: two release
      names of one title with different tags share a key. */
  lemma KeyIgnoresTags(t: string, sep1: char, rest1: string, sep2: char, rest2: string)
    requires IsSingleWord(t) && IsSeparatorChar(sep1) && IsSeparatorChar(sep2)
    requires MarkerAt(rest1, 0, TitleMarkers) && MarkerAt(rest2, 0, TitleMarkers)
    ensures NormalizedKey(t + [sep1] + rest1) == NormalizedKey(t + [sep2] + rest2)
  {
    TitleKey(t, sep1, rest1);
    TitleKey(t, sep2, rest2);
  }

  /** Leet spellings of a title of several words need not share a key: in
      "Show.1980s.Kids" the year marker cuts the title after "Show", while
      its twin "Show.I98Os.Kids", which de-leets to the same text, runs on
      to the season marker. */
  lemma MultiWordLeetSpellingsDiffer()
    ensures Lower(DeLeet("Show.1980s.Kids")) == Lower(DeLeet("Show.I98Os.Kids"))
    ensures NormalizedKey("Show.1980s.Kids.S01E01.mkv") == "show"
    ensures NormalizedKey("Show.I98Os.Kids.S01E01.mkv") == "showi98oskids"
  {
    LeetTwins();
    YearCutKey();
    LateCutKey();
  }

  lemma LeetTwins()
    ensures Lower(DeLeet("Show.1980s.Kids")) == Lower(DeLeet("Show.I98Os.Kids"))
  {
    YearDeLeet();
    DeLeetFixed("Show.I98Os.Kids");
    LowerTwin("Show.i98os.Kids");
    LowerTwin("Show.I98Os.Kids");
  }

  lemma YearDeLeet()
    ensures DeLeet("Show.1980s.Kids") == "Show.i98os.Kids"
  {
    var d := DeLeet("Show.1980s.Kids");
    forall i | 0 <= i < 15 ensures d[i] == "Show.i98os.Kids"[i] {}
  }

  lemma LowerTwin(t: string)
    requires t == "Show.i98os.Kids" || t == "Show.I98Os.Kids"
    ensures Lower(t) == "show.i98os.kids"
  {
    var l := Lower(t);
    forall i | 0 <= i < 15 ensures l[i] == "show.i98os.kids"[i] {}
  }

  lemma YearCutKey()
    ensures NormalizedKey("Show.1980s.Kids.S01E01.mkv") == "show"
  {
    var rest := "1980s.Kids.S01E01.mkv";
    assert "Show.1980s.Kids.S01E01.mkv" == "Show" + ['.'] + rest;
    assert MarkerAt(rest, 0, TitleMarkers);
    TitleKey("Show", '.', rest);
    ShowTitle();
  }

  lemma ShowTitle()
    ensures KeepKeyChars(Lower(DeLeet("Show"))) == "show"
  {
    DeLeetFixed("Show");
    LowerShow();
    KeepKeyCharsFixed("show");
  }

  lemma LowerShow()
    ensures Lower("Show") == "show"
  {
    var l := Lower("Show");
    forall i | 0 <= i < 4 ensures l[i] == "show"[i] {}
  }

  /** Text without leet characters comes through deLeet unchanged. */
  lemma DeLeetFixed(t: string)
    requires forall i :: 0 <= i < |t| ==> !IsLeet(t[i])
    ensures DeLeet(t) == t
  {
    var d := DeLeet(t);
    forall i | 0 <= i < |t| ensures d[i] == t[i] {}
  }

  lemma {:induction false} KeepKeyCharsFixed(k: string)
    requires forall i :: 0 <= i < |k| ==> IsKeyChar(k[i])
    ensures KeepKeyChars(k) == k
  {
    if k != [] {
      KeepKeyCharsFixed(k[1..]);
      assert k == [k[0]] + k[1..];
    }
  }

  lemma LateCutKey()
    ensures NormalizedKey("Show.I98Os.Kids.S01E01.mkv") == "showi98oskids"
  {
    var f := "Show.I98Os.Kids.S01E01.mkv";
    var c := Clean(f);
    assert c == "Show I98Os Kids S01E01 mkv" by {
      forall i | 0 <= i < |f| ensures c[i] == "Show I98Os Kids S01E01 mkv"[i] {}
    }
    LateCutAt(c);
    assert RawTitle(c, TitleMarkers) == "Show I98Os Kids";
    LateTitleKey();
  }

  /** The first cut of the cleaned twin is before its season marker. */
  lemma LateCutAt(c: string)
    requires c == "Show I98Os Kids S01E01 mkv"
    ensures FirstCut(c, TitleMarkers) == Some(15)
  {
    CutAtSeason(c);
    NoCutBeforeSeason(c);
  }

  lemma CutAtSeason(c: string)
    requires c == "Show I98Os Kids S01E01 mkv"
    ensures IsCut(c, 15, TitleMarkers)
  {
    assert SpaceRunEnd(c, 15) == 16 by {
      SpaceRunEndIsMaximal(c, 15, 16);
    }
  }

  lemma NoCutBeforeSeason(c: string)
    requires c == "Show I98Os Kids S01E01 mkv"
    ensures forall j :: 1 <= j < 15 ==> !IsCut(c, j, TitleMarkers)
  {
    NoCutAtSpaces(c);
    forall j | 1 <= j < 15 && j != 4 && j != 10 ensures !IsSpace(c[j]) {}
  }

  lemma NoCutAtSpaces(c: string)
    requires c == "Show I98Os Kids S01E01 mkv"
    ensures !IsCut(c, 4, TitleMarkers) && !IsCut(c, 10, TitleMarkers)
  {
    assert SpaceRunEnd(c, 4) == 5 by {
      SpaceRunEndIsMaximal(c, 4, 5);
    }
    assert SpaceRunEnd(c, 10) == 11 by {
      SpaceRunEndIsMaximal(c, 10, 11);
    }
  }

  lemma LateTitleKey()
    ensures KeepKeyChars(Lower(DeLeet("Show I98Os Kids"))) == "showi98oskids"
  {
    DeLeetFixed("Show I98Os Kids");
    LowerLateTitle();
    LateTitleFilter();
  }

  lemma LowerLateTitle()
    ensures Lower("Show I98Os Kids") == "show i98os kids"
  {
    var l := Lower("Show I98Os Kids");
    forall i | 0 <= i < 15 ensures l[i] == "show i98os kids"[i] {}
  }

  lemma LateTitleFilter()
    ensures KeepKeyChars("show i98os kids") == "showi98oskids"
  {
    LateTitleWords();
    ThreeWordsRegroup("show", "i98os", "kids");
    ThreeWordsFilter("show", "i98os", "kids");
    KeptWord("show");
    KeptWord("i98os");
    KeptWord("kids");
  }

  lemma LateTitleWords()
    ensures "show i98os kids" == "show" + [' '] + "i98os" + [' '] + "kids"
    ensures "showi98oskids" == "show" + ("i98os" + "kids")
  {
  }

  lemma KeptWord(w: string)
    requires w == "show" || w == "i98os" || w == "kids"
    ensures KeepKeyChars(w) == w
  {
    assert forall i :: 0 <= i < |w| ==> IsKeyChar(w[i]);
    KeepKeyCharsFixed(w);
  }

  lemma ThreeWordsRegroup(w: string, n: string, k: string)
    ensures w + [' '] + n + [' '] + k == w + [' '] + (n + [' '] + k)
  {
  }

  /** Spaces between words are dropped and the words are filtered in order. */
  lemma ThreeWordsFilter(w: string, n: string, k: string)
    ensures KeepKeyChars(w + [' '] + (n + [' '] + k))
         == KeepKeyChars(w) + (KeepKeyChars(n) + KeepKeyChars(k))
  {
    DropsSeparator(w, n + [' '] + k);
    DropsSeparator(n, k);
  }

  /** A space between two pieces is dropped. */
  lemma DropsSeparator(a: string, b: string)
    ensures KeepKeyChars(a + [' '] + b) == KeepKeyChars(a) + KeepKeyChars(b)
  {
    KeepKeyCharsAppend(a, [' '] + b);
    assert a + [' '] + b == a + ([' '] + b);
    assert KeepKeyChars([' '] + b) == KeepKeyChars(b) by {
      assert ([' '] + b)[1..] == b;
    }
  }

  /** "Dar3devil.S01E01.mkv" and "Daredevil.S01E01.mkv" both give "daredevil". */
  lemma DarEDevilExample()
    ensures NormalizedKey("Dar3devil.S01E01.mkv") == "daredevil"
    ensures NormalizedKey("Daredevil.S01E01.mkv") == "daredevil"
  {
    assert "Dar3devil.S01E01.mkv" == "Dar3devil" + ['.'] + "S01E01.mkv";
    assert "Daredevil.S01E01.mkv" == "Daredevil" + ['.'] + "S01E01.mkv";
    DaredevilKey("Dar3devil");
    DaredevilKey("Daredevil");
  }

  lemma DaredevilKey(t: string)
    requires t == "Dar3devil" || t == "Daredevil"
    ensures NormalizedKey(t + ['.'] + "S01E01.mkv") == "daredevil"
  {
    var rest := "S01E01.mkv";
    assert MarkerAt(rest, 0, TitleMarkers);
    TitleKey(t, '.', rest);
    DaredevilTitle();
  }

  lemma DaredevilTitle()
    ensures KeepKeyChars(Lower(DeLeet("Dar3devil"))) == "daredevil"
    ensures KeepKeyChars(Lower(DeLeet("Daredevil"))) == "daredevil"
  {
    DeLeetSpelling("Dar3devil");
    DeLeetSpelling("Daredevil");
    assert Lower("Daredevil") == "daredevil";
    var k := "daredevil";
    assert forall i :: 0 <= i < |k| ==> IsKeyChar(k[i]);
  }

  lemma DeLeetSpelling(t: string)
    requires t == "Dar3devil" || t == "Daredevil"
    ensures DeLeet(t) == "Daredevil"
  {
    var d := DeLeet(t);
    assert |d| == 9;
    forall i | 0 <= i < 9 ensures d[i] == "Daredevil"[i] {}
  }

  /** Trim: `r` is `s` without its leading and trailing whitespace. */
  ghost predicate IsTrimOf(r: string, s: string) {
    exists a: nat, b: nat :: a <= b <= |s| && r == s[a..b]
      && AllSpace(s, 0, a) && AllSpace(s, b, |s|)
      && (r == [] || (!IsSpace(r[0]) && !IsSpace(r[|r| - 1])))
  }

  /** The length of the leading whitespace run from `a` on. */
  function TrimStartIndex(s: string, a: nat): (r: nat)
    requires a <= |s| && AllSpace(s, 0, a)
    ensures a <= r <= |s| && AllSpace(s, 0, r)
    ensures r == |s| || !IsSpace(s[r])
    decreases |s| - a
  {
    if a < |s| && IsSpace(s[a]) then TrimStartIndex(s, a + 1) else a
  }

  /** The start of the trailing whitespace run, not going below `lo`. */
  function TrimEndIndex(s: string, lo: nat, b: nat): (r: nat)
    requires lo <= b <= |s| && AllSpace(s, b, |s|)
    ensures lo <= r <= b && AllSpace(s, r, |s|)
    ensures r == lo || !IsSpace(s[r - 1])
    decreases b
  {
    if lo < b && IsSpace(s[b - 1]) then TrimEndIndex(s, lo, b - 1) else b
  }

  /** `String.prototype.trim` */
  function Trim(s: string): (r: string)
    ensures IsTrimOf(r, s)
  {
    var a := TrimStartIndex(s, 0);
    var b := TrimEndIndex(s, a, |s|);
    var r := s[a..b];
    assert r == [] || (r[0] == s[a] && r[|r| - 1] == s[b - 1]);
    r
  }

  /** `getDisplayTitle`: cut only at a season marker, then trim; with no
      season marker the cleaned string is returned untrimmed. */
  function DisplayTitle(filename: string): (r: string)
    ensures forall i :: 0 <= i < |r| ==> r[i] != '.' && r[i] != '_'
    ensures FirstCut(Clean(filename), SeasonMarker).None? ==>
      r == Clean(filename) && |r| == |filename|
    ensures FirstCut(Clean(filename), SeasonMarker).Some? ==>
      IsTrimOf(r, Clean(filename)[..FirstCut(Clean(filename), SeasonMarker).value])
  {
    var clean := Clean(filename);
    match FirstCut(clean, SeasonMarker)
    case Some(i) =>
      var p := clean[..i];
      var r := Trim(p);
      var a := TrimStartIndex(p, 0);
      assert r == p[a..TrimEndIndex(p, a, |p|)];
      assert forall k :: 0 <= k < |r| ==> r[k] == clean[a + k];
      r
    case None => clean
  }

  /** The display title never cuts earlier than the key: a season marker is
      also one of the key's markers. */
  lemma DisplayCutNotBeforeKeyCut(clean: string)
    requires FirstCut(clean, SeasonMarker).Some?
    ensures FirstCut(clean, TitleMarkers).Some?
    ensures FirstCut(clean, TitleMarkers).value <= FirstCut(clean, SeasonMarker).value
  {
    var i := FirstCut(clean, SeasonMarker).value;
    assert IsCut(clean, i, TitleMarkers);
  }
}
