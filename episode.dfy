/** `matchesEpisode` and `parseSeasonEpisode`.

    The matcher tests two case-insensitive regular expressions built from
    the numerically coerced season `s` and episode `e`:
    `S0*<s>[^0-9]*E0*<e>` anywhere in the filename, or the token
    `\b<s>x<e>\b`. The functions below are a backtracking matcher for
    exactly these two patterns; `MatchesEpisode`'s contract ties them to the
    patterns' languages, written as explicit decompositions of the
    filename. */
module Episode {
  import opened Strings

  predicate IsS(c: char) { c == 's' || c == 'S' }
  predicate IsE(c: char) { c == 'e' || c == 'E' }
  predicate IsX(c: char) { c == 'x' || c == 'X' }

  predicate AllZero(f: string, i: nat, j: nat)
    requires i <= j <= |f|
  {
    forall k :: i <= k < j ==> f[k] == '0'
  }

  predicate AllNonDigit(f: string, i: nat, j: nat)
    requires i <= j <= |f|
  {
    forall k :: i <= k < j ==> !IsDigit(f[k])
  }

  /** `d` occurs in `f` at index `i`, ignoring the letter case. */
  predicate TextAt(f: string, i: nat, d: string) {
    i + |d| <= |f| && forall j :: 0 <= j < |d| ==> LowerChar(f[i + j]) == LowerChar(d[j])
  }

  // ---------------------------------------------------------------------
  // The languages of the two patterns, as decompositions of the filename.

  /** `0*<e>` read from `i`: zeros up to `t`, then the episode digits. */
  ghost predicate EpisodeAt(f: string, i: nat, t: nat, ed: string) {
    i <= t <= |f| && AllZero(f, i, t) && TextAt(f, t, ed)
  }

  /** `[^0-9]*E0*<e>` read from `i`, with the `E` at `q`. */
  ghost predicate NonDigitsEAt(f: string, i: nat, q: nat, t: nat, ed: string) {
    i <= q < |f| && AllNonDigit(f, i, q) && IsE(f[q]) && EpisodeAt(f, q + 1, t, ed)
  }

  /** `0*<s>[^0-9]*E0*<e>` read from `i`, with the season digits at `p`. */
  ghost predicate SeasonAt(f: string, i: nat, p: nat, q: nat, t: nat, sd: string, ed: string) {
    i <= p <= |f| && AllZero(f, i, p) && TextAt(f, p, sd)
    && NonDigitsEAt(f, p + |sd|, q, t, ed)
  }

  /** The whole pattern `S0*<s>[^0-9]*E0*<e>` with its `S` at `k`. */
  ghost predicate SEAt(f: string, k: nat, p: nat, q: nat, t: nat, sd: string, ed: string) {
    k < |f| && IsS(f[k]) && SeasonAt(f, k + 1, p, q, t, sd, ed)
  }

  ghost predicate SEPattern(f: string, sd: string, ed: string) {
    exists k: nat, p: nat, q: nat, t: nat :: SEAt(f, k, p, q, t, sd, ed)
  }

  /** JavaScript `\b` at index `k` (outside the string counts as non-word). */
  predicate WordBoundary(f: string, k: nat) {
    (k > 0 && k - 1 < |f| && IsWordChar(f[k - 1])) != (k < |f| && IsWordChar(f[k]))
  }

  /** `\b<s>x<e>\b` at index `k` */
  predicate XTokenAt(f: string, k: nat, sd: string, ed: string) {
    var n := |sd| + 1 + |ed|;
    k + n <= |f| && TextAt(f, k, sd) && IsX(f[k + |sd|]) && TextAt(f, k + |sd| + 1, ed)
    && WordBoundary(f, k) && WordBoundary(f, k + n)
  }

  ghost predicate XPattern(f: string, sd: string, ed: string) {
    exists k: nat :: XTokenAt(f, k, sd, ed)
  }

  // ---------------------------------------------------------------------
  // The backtracking matcher.

  /** `0*<e>` from `i` */
  function ZerosThen(f: string, i: nat, ed: string): bool
    requires i <= |f|
    decreases |f| - i
  {
    TextAt(f, i, ed) || (i < |f| && f[i] == '0' && ZerosThen(f, i + 1, ed))
  }

  /** `[^0-9]*E0*<e>` from `i` */
  function NonDigitsThenE(f: string, i: nat, ed: string): bool
    requires i <= |f|
    decreases |f| - i
  {
    i < |f| && ((IsE(f[i]) && ZerosThen(f, i + 1, ed)) || (!IsDigit(f[i]) && NonDigitsThenE(f, i + 1, ed)))
  }

  /** `0*<s>[^0-9]*E0*<e>` from `i` */
  function SeasonThen(f: string, i: nat, sd: string, ed: string): bool
    requires i <= |f|
    decreases |f| - i
  {
    (TextAt(f, i, sd) && NonDigitsThenE(f, i + |sd|, ed))
    || (i < |f| && f[i] == '0' && SeasonThen(f, i + 1, sd, ed))
  }

  /** The unanchored search for `S0*<s>[^0-9]*E0*<e>` from index `k` on. */
  function SEMatchFrom(f: string, k: nat, sd: string, ed: string): bool
    requires k <= |f|
    decreases |f| - k
  {
    k < |f| && ((IsS(f[k]) && SeasonThen(f, k + 1, sd, ed)) || SEMatchFrom(f, k + 1, sd, ed))
  }

  /** The unanchored search for `\b<s>x<e>\b` from index `k` on. */
  function XMatchFrom(f: string, k: nat, sd: string, ed: string): bool
    requires k <= |f|
    decreases |f| - k
  {
    XTokenAt(f, k, sd, ed) || (k < |f| && XMatchFrom(f, k + 1, sd, ed))
  }

  // ---------------------------------------------------------------------
  // The matcher decides the languages.

  lemma {:induction false} ZerosThenSpec(f: string, i: nat, ed: string)
    requires i <= |f|
    ensures ZerosThen(f, i, ed) <==> exists t: nat :: EpisodeAt(f, i, t, ed)
    decreases |f| - i
  {
    if ZerosThen(f, i, ed) {
      if TextAt(f, i, ed) {
        assert EpisodeAt(f, i, i, ed);
      } else {
        ZerosThenSpec(f, i + 1, ed);
        var t: nat :| EpisodeAt(f, i + 1, t, ed);
        assert EpisodeAt(f, i, t, ed);
      }
    }
    if exists t: nat :: EpisodeAt(f, i, t, ed) {
      var t: nat :| EpisodeAt(f, i, t, ed);
      if t > i {
        assert EpisodeAt(f, i + 1, t, ed);
        ZerosThenSpec(f, i + 1, ed);
      }
    }
  }

  lemma {:induction false} NonDigitsThenESpec(f: string, i: nat, ed: string)
    requires i <= |f|
    ensures NonDigitsThenE(f, i, ed) <==> exists q: nat, t: nat :: NonDigitsEAt(f, i, q, t, ed)
    decreases |f| - i
  {
    if NonDigitsThenE(f, i, ed) {
      if IsE(f[i]) && ZerosThen(f, i + 1, ed) {
        ZerosThenSpec(f, i + 1, ed);
        var t: nat :| EpisodeAt(f, i + 1, t, ed);
        assert NonDigitsEAt(f, i, i, t, ed);
      } else {
        NonDigitsThenESpec(f, i + 1, ed);
        var q: nat, t: nat :| NonDigitsEAt(f, i + 1, q, t, ed);
        assert NonDigitsEAt(f, i, q, t, ed);
      }
    }
    if exists q: nat, t: nat :: NonDigitsEAt(f, i, q, t, ed) {
      var q: nat, t: nat :| NonDigitsEAt(f, i, q, t, ed);
      if q == i {
        ZerosThenSpec(f, i + 1, ed);
      } else {
        assert NonDigitsEAt(f, i + 1, q, t, ed);
        NonDigitsThenESpec(f, i + 1, ed);
      }
    }
  }

  /** One more leading zero before the season digits. */
  lemma SeasonAtZeroStep(f: string, i: nat, p: nat, q: nat, t: nat, sd: string, ed: string)
    requires i < |f| && f[i] == '0'
    ensures SeasonAt(f, i + 1, p, q, t, sd, ed) ==> SeasonAt(f, i, p, q, t, sd, ed)
    ensures SeasonAt(f, i, p, q, t, sd, ed) && p != i ==> SeasonAt(f, i + 1, p, q, t, sd, ed)
  {
  }

  lemma {:induction false} SeasonThenSound(f: string, i: nat, sd: string, ed: string)
    requires i <= |f| && SeasonThen(f, i, sd, ed)
    ensures exists p: nat, q: nat, t: nat :: SeasonAt(f, i, p, q, t, sd, ed)
    decreases |f| - i
  {
    if TextAt(f, i, sd) && NonDigitsThenE(f, i + |sd|, ed) {
      NonDigitsThenESpec(f, i + |sd|, ed);
      var q: nat, t: nat :| NonDigitsEAt(f, i + |sd|, q, t, ed);
      assert SeasonAt(f, i, i, q, t, sd, ed);
    } else {
      SeasonThenSound(f, i + 1, sd, ed);
      var p: nat, q: nat, t: nat :| SeasonAt(f, i + 1, p, q, t, sd, ed);
      SeasonAtZeroStep(f, i, p, q, t, sd, ed);
    }
  }

  lemma {:induction false} SeasonThenComplete(f: string, i: nat, p: nat, q: nat, t: nat, sd: string, ed: string)
    requires i <= |f| && SeasonAt(f, i, p, q, t, sd, ed)
    ensures SeasonThen(f, i, sd, ed)
    decreases |f| - i
  {
    if p == i {
      assert NonDigitsEAt(f, i + |sd|, q, t, ed);
      NonDigitsThenESpec(f, i + |sd|, ed);
    } else {
      assert f[i] == '0';
      SeasonAtZeroStep(f, i, p, q, t, sd, ed);
      SeasonThenComplete(f, i + 1, p, q, t, sd, ed);
    }
  }

  lemma SeasonThenSpec(f: string, i: nat, sd: string, ed: string)
    requires i <= |f|
    ensures SeasonThen(f, i, sd, ed) <==>
      exists p: nat, q: nat, t: nat :: SeasonAt(f, i, p, q, t, sd, ed)
  {
    if SeasonThen(f, i, sd, ed) {
      SeasonThenSound(f, i, sd, ed);
    }
    if exists p: nat, q: nat, t: nat :: SeasonAt(f, i, p, q, t, sd, ed) {
      var p: nat, q: nat, t: nat :| SeasonAt(f, i, p, q, t, sd, ed);
      SeasonThenComplete(f, i, p, q, t, sd, ed);
    }
  }

  lemma {:induction false} SEMatchFromSound(f: string, k: nat, sd: string, ed: string)
    requires k <= |f| && SEMatchFrom(f, k, sd, ed)
    ensures exists k': nat, p: nat, q: nat, t: nat :: k <= k' && SEAt(f, k', p, q, t, sd, ed)
    decreases |f| - k
  {
    if IsS(f[k]) && SeasonThen(f, k + 1, sd, ed) {
      SeasonThenSpec(f, k + 1, sd, ed);
      var p: nat, q: nat, t: nat :| SeasonAt(f, k + 1, p, q, t, sd, ed);
      assert SEAt(f, k, p, q, t, sd, ed);
    } else {
      SEMatchFromSound(f, k + 1, sd, ed);
      var k': nat, p: nat, q: nat, t: nat :| k + 1 <= k' && SEAt(f, k', p, q, t, sd, ed);
      assert k <= k';
    }
  }

  lemma {:induction false} SEMatchFromComplete(f: string, k: nat, k': nat, p: nat, q: nat, t: nat,
                                               sd: string, ed: string)
    requires k <= k' && k <= |f| && SEAt(f, k', p, q, t, sd, ed)
    ensures SEMatchFrom(f, k, sd, ed)
    decreases k' - k
  {
    if k' == k {
      SeasonThenComplete(f, k + 1, p, q, t, sd, ed);
    } else {
      SEMatchFromComplete(f, k + 1, k', p, q, t, sd, ed);
    }
  }

  lemma SEMatchFromSpec(f: string, k: nat, sd: string, ed: string)
    requires k <= |f|
    ensures SEMatchFrom(f, k, sd, ed) <==>
      exists k': nat, p: nat, q: nat, t: nat :: k <= k' && SEAt(f, k', p, q, t, sd, ed)
  {
    if SEMatchFrom(f, k, sd, ed) {
      SEMatchFromSound(f, k, sd, ed);
    }
    if exists k': nat, p: nat, q: nat, t: nat :: k <= k' && SEAt(f, k', p, q, t, sd, ed) {
      var k': nat, p: nat, q: nat, t: nat :| k <= k' && SEAt(f, k', p, q, t, sd, ed);
      SEMatchFromComplete(f, k, k', p, q, t, sd, ed);
    }
  }

  lemma {:induction false} XMatchFromSpec(f: string, k: nat, sd: string, ed: string)
    requires k <= |f|
    ensures XMatchFrom(f, k, sd, ed) <==> exists k': nat :: k <= k' && XTokenAt(f, k', sd, ed)
    decreases |f| - k
  {
    if k < |f| {
      XMatchFromSpec(f, k + 1, sd, ed);
    } else {
      assert forall k': nat :: k <= k' && XTokenAt(f, k', sd, ed) ==> k' == k;
    }
  }

  // ---------------------------------------------------------------------
  // matchesEpisode

  /** `!season`: an absent or empty string is falsy. */
  predicate Falsy(v: Option<string>) {
    v.None? || v.value == []
  }

  /** `${Number(v)}`: the text the pattern is built from. A digit string
      prints as its exact value (JavaScript agrees up to 2^53); anything
      else is read as `NaN`. */
  function Coerced(v: string): (r: string)
    ensures r != []
    ensures AllDigits(v) ==> AllDigits(r) && DigitsValue(r) == DigitsValue(v)
    ensures AllDigits(v) ==> (r[0] == '0' ==> r == "0")
    ensures !AllDigits(v) ==> r == "NaN"
  {
    if AllDigits(v) then (DecimalRoundTrip(DigitsValue(v)); Decimal(DigitsValue(v))) else "NaN"
  }

  /** `matchesEpisode(filename, season, episode)` */
  function MatchesEpisode(filename: string, season: Option<string>, episode: Option<string>): (r: bool)
    ensures Falsy(season) || Falsy(episode) ==> !r
    ensures !Falsy(season) && !Falsy(episode) ==>
      (r <==> SEPattern(filename, Coerced(season.value), Coerced(episode.value))
              || XPattern(filename, Coerced(season.value), Coerced(episode.value)))
  {
    if Falsy(season) || Falsy(episode) then false
    else
      var sd := Coerced(season.value);
      var ed := Coerced(episode.value);
      SEMatchFromSpec(filename, 0, sd, ed);
      XMatchFromSpec(filename, 0, sd, ed);
      SEMatchFrom(filename, 0, sd, ed) || XMatchFrom(filename, 0, sd, ed)
  }

  // ---------------------------------------------------------------------
  // What the matcher accepts.

  function Zeros(n: nat): (r: string)
    ensures |r| == n && forall i :: 0 <= i < n ==> r[i] == '0'
  {
    seq(n, _ => '0')
  }

  /** `Number` coercion: "01" and "1" ask for the same episode. */
  lemma LeadingZeroCoercion(f: string, v: string, other: Option<string>, seasonSide: bool)
    requires AllDigits(v) && v != []
    ensures AllDigits(['0'] + v)
    ensures seasonSide ==> MatchesEpisode(f, Some(['0'] + v), other) == MatchesEpisode(f, Some(v), other)
    ensures !seasonSide ==> MatchesEpisode(f, other, Some(['0'] + v)) == MatchesEpisode(f, other, Some(v))
  {
    LeadingZeroValue(v);
  }

  /** `S<zeros><s><non-digits>E<zeros><e>` anywhere in the filename matches,
      in either letter case, however many zeros pad the numbers. */
  lemma PaddedSeasonEpisodeMatches(pre: string, cs: char, a: nat, mid: string, ce: char, b: nat,
                                   post: string, season: string, episode: string)
    requires IsS(cs) && IsE(ce) && AllNonDigit(mid, 0, |mid|)
    requires AllDigits(season) && season != [] && AllDigits(episode) && episode != []
    ensures MatchesEpisode(pre + [cs] + Zeros(a) + Coerced(season) + mid + [ce] + Zeros(b)
                           + Coerced(episode) + post, Some(season), Some(episode))
  {
    var sd, ed := Coerced(season), Coerced(episode);
    var f := pre + [cs] + Zeros(a) + sd + mid + [ce] + Zeros(b) + ed + post;
    var k := |pre|;
    var p := k + 1 + a;
    var q := p + |sd| + |mid|;
    var t := q + 1 + b;
    assert f[p..p + |sd|] == sd;
    assert f[t..t + |ed|] == ed;
    assert EpisodeAt(f, q + 1, t, ed);
    assert NonDigitsEAt(f, p + |sd|, q, t, ed);
    assert SEAt(f, k, p, q, t, sd, ed);
  }

  /** `<s>x<e>` as a whole word matches. */
  lemma CrossFormMatches(pre: string, cx: char, post: string, season: string, episode: string)
    requires IsX(cx)
    requires AllDigits(season) && season != [] && AllDigits(episode) && episode != []
    requires pre == [] || !IsWordChar(pre[|pre| - 1])
    requires post == [] || !IsWordChar(post[0])
    ensures MatchesEpisode(pre + Coerced(season) + [cx] + Coerced(episode) + post,
                           Some(season), Some(episode))
  {
    var sd, ed := Coerced(season), Coerced(episode);
    var f := pre + sd + [cx] + ed + post;
    var k := |pre|;
    assert f[k..k + |sd|] == sd;
    assert f[k + |sd| + 1..k + |sd| + 1 + |ed|] == ed;
    assert XTokenAt(f, k, sd, ed);
  }

  /** As written, nothing follows the episode digits, so episode 1 also
      matches an `E11` filename. */
  lemma EpisodeOneMatchesE11()
    ensures MatchesEpisode("Show.S01E11.mkv", Some("1"), Some("1"))
  {
    assert "Show.S01E11.mkv" == "Show." + ['S'] + Zeros(1) + Coerced("1") + "" + ['E'] + Zeros(0) + Coerced("1") + "1.mkv";
    PaddedSeasonEpisodeMatches("Show.", 'S', 1, "", 'E', 0, "1.mkv", "1", "1");
  }

  lemma EpisodeOneMatchesE01()
    ensures MatchesEpisode("Show.S01E01.mkv", Some("1"), Some("1"))
  {
    assert "Show.S01E01.mkv" == "Show." + ['S'] + Zeros(1) + Coerced("1") + "" + ['E'] + Zeros(1) + Coerced("1") + ".mkv";
    PaddedSeasonEpisodeMatches("Show.", 'S', 1, "", 'E', 1, ".mkv", "1", "1");
  }

  /** The `<s>x<e>` form allows no zero padding: `1x05` is not episode 5. */
  lemma PaddedCrossFormMissed()
    ensures !MatchesEpisode("Show.1x05.mkv", Some("1"), Some("5"))
  {
    assert Coerced("1") == "1";
    assert Coerced("5") == "5";
    var f := "Show.1x05.mkv";
    assert f[7] == '0';
    assert forall i :: 0 <= i < |f| && i != 5 ==> f[i] != '1';
    assert forall i :: 0 <= i < |f| && i != 0 ==> !IsS(f[i]);
    assert f[1] == 'h';
    forall k: nat ensures !XTokenAt(f, k, "1", "5") {
      if k + 3 <= |f| {
        assert f[k..k + 1] == [f[k]];
      }
    }
    forall k: nat, p: nat, q: nat, t: nat ensures !SEAt(f, k, p, q, t, "1", "5") {
      if k == 0 && 1 <= p < |f| {
        assert f[p..p + 1] == [f[p]];
        if p > 1 { assert f[1] != '0'; }
      }
    }
  }

  /** A movie request carries no season or episode and never matches. */
  lemma AbsentCoordinatesNeverMatch(f: string)
    ensures !MatchesEpisode(f, None, None)
    ensures !MatchesEpisode(f, Some(""), Some("1"))
  {
  }
  // ---------------------------------------------------------------------
  // parseSeasonEpisode

  predicate NoSep(s: string, sep: char) {
    forall i :: 0 <= i < |s| ==> s[i] != sep
  }

  function CountOf(s: string, c: char): nat {
    if s == [] then 0 else CountOf(s[..|s| - 1], c) + (if s[|s| - 1] == c then 1 else 0)
  }

  /** `s.split(sep)` for a one-character separator. */
  function Split(s: string, sep: char): (r: seq<string>)
    ensures |r| == CountOf(s, sep) + 1
    ensures forall k :: 0 <= k < |r| ==> NoSep(r[k], sep)
  {
    if s == [] then [[]]
    else
      var r := Split(s[..|s| - 1], sep);
      if s[|s| - 1] == sep then r + [[]]
      else r[..|r| - 1] + [r[|r| - 1] + [s[|s| - 1]]]
  }

  /** `parts.join(sep)`, the inverse of `Split`. */
  function Join(parts: seq<string>, sep: char): string
    requires parts != []
  {
    if |parts| == 1 then parts[0] else Join(parts[..|parts| - 1], sep) + [sep] + parts[|parts| - 1]
  }

  lemma {:induction false} JoinSplit(s: string, sep: char)
    ensures Join(Split(s, sep), sep) == s
  {
    if s != [] {
      var r := Split(s[..|s| - 1], sep);
      JoinSplit(s[..|s| - 1], sep);
      if s[|s| - 1] != sep {
        var r' := Split(s, sep);
        if |r| == 1 {
          assert r' == [r[0] + [s[|s| - 1]]];
        } else {
          assert r'[..|r'| - 1] == r[..|r| - 1];
          assert Join(r, sep) == Join(r[..|r| - 1], sep) + [sep] + r[|r| - 1];
        }
      }
    }
  }

  /** A text without the separator is a single piece. */
  lemma {:induction false} SplitNoSep(t: string, sep: char)
    requires NoSep(t, sep)
    ensures Split(t, sep) == [t]
  {
    if t != [] {
      SplitNoSep(t[..|t| - 1], sep);
      assert t[..|t| - 1] + [t[|t| - 1]] == t;
    }
  }

  /** A separator followed by separator-free text adds one piece. */
  lemma {:induction false} SplitAppend(s: string, t: string, sep: char)
    requires NoSep(t, sep)
    ensures Split(s + [sep] + t, sep) == Split(s, sep) + [t]
  {
    var u := s + [sep] + t;
    if t == [] {
      assert u[..|u| - 1] == s;
    } else {
      var t' := t[..|t| - 1];
      assert u[..|u| - 1] == s + [sep] + t';
      SplitAppend(s, t', sep);
      assert t' + [t[|t| - 1]] == t;
    }
  }

  lemma {:induction false} SplitJoin(parts: seq<string>, sep: char)
    requires parts != [] && forall k :: 0 <= k < |parts| ==> NoSep(parts[k], sep)
    ensures Split(Join(parts, sep), sep) == parts
  {
    if |parts| == 1 {
      SplitNoSep(parts[0], sep);
    } else {
      var init := parts[..|parts| - 1];
      SplitJoin(init, sep);
      SplitAppend(Join(init, sep), parts[|parts| - 1], sep);
      assert init + [parts[|parts| - 1]] == parts;
    }
  }

  datatype Parsed = Parsed(baseId: string, season: Option<string>, episode: Option<string>)

  /** `parseSeasonEpisode(id)`: the pieces of `id` around its colons; the
      pieces a short id lacks are `undefined`. */
  function ParseSeasonEpisode(id: string): (r: Parsed)
    ensures NoSep(r.baseId, ':') && |r.baseId| <= |id| && id[..|r.baseId|] == r.baseId
    ensures r.season.None? <==> CountOf(id, ':') == 0
    ensures r.episode.None? <==> CountOf(id, ':') <= 1
    ensures r.season.Some? ==> NoSep(r.season.value, ':')
    ensures r.episode.Some? ==> NoSep(r.episode.value, ':')
    ensures |r.baseId| == |id| || id[|r.baseId|] == ':'
    ensures r.season.Some? ==>
      var s0 := |r.baseId| + 1;
      var s1 := s0 + |r.season.value|;
      s1 <= |id| && id[s0..s1] == r.season.value && (s1 == |id| || id[s1] == ':')
    ensures r.episode.Some? ==> r.season.Some?
    ensures r.episode.Some? && r.season.Some? ==>
      var e0 := |r.baseId| + 1 + |r.season.value| + 1;
      var e1 := e0 + |r.episode.value|;
      e1 <= |id| && id[e0..e1] == r.episode.value && (e1 == |id| || id[e1] == ':')
  {
    var p := Split(id, ':');
    JoinSplit(id, ':');
    JoinPrefix(p, ':');
    PieceOffsets(id, p);
    Parsed(p[0], if |p| > 1 then Some(p[1]) else None, if |p| > 2 then Some(p[2]) else None)
  }

  /** The first three pieces of `split(":")` sit at consecutive offsets of
      the text, each ending it or followed by a colon. */
  lemma PieceOffsets(id: string, p: seq<string>)
    requires p != [] && Join(p, ':') == id
    ensures |p[0]| <= |id| && (|p[0]| == |id| || id[|p[0]|] == ':')
    ensures |p| > 1 ==> var s0 := |p[0]| + 1; var s1 := s0 + |p[1]|;
      s1 <= |id| && id[s0..s1] == p[1] && (s1 == |id| || id[s1] == ':')
    ensures |p| > 2 ==> var e0 := |p[0]| + 1 + |p[1]| + 1; var e1 := e0 + |p[2]|;
      e1 <= |id| && id[e0..e1] == p[2] && (e1 == |id| || id[e1] == ':')
  {
    PiecesAfterFirst(p, ':');
    if |p| == 1 {
      LastPiece(id, 0, p[0]);
    } else {
      var q := p[1..];
      var k := |p[0]| + 1;
      NextPiece(id, 0, p[0], Join(q, ':'));
      assert id[k..] == Join(q, ':');
      RestOffsets(id, k, q);
      assert q[0] == p[1];
      assert |p| > 2 ==> q[1] == p[2];
    }
  }

  /** The first two pieces of the rest, from offset `k` on. */
  lemma RestOffsets(id: string, k: nat, q: seq<string>)
    requires q != [] && k <= |id| && id[k..] == Join(q, ':')
    ensures k + |q[0]| <= |id| && id[k..k + |q[0]|] == q[0] && (k + |q[0]| == |id| || id[k + |q[0]|] == ':')
    ensures |q| > 1 ==> var e0 := k + |q[0]| + 1; var e1 := e0 + |q[1]|;
      e1 <= |id| && id[e0..e1] == q[1] && (e1 == |id| || id[e1] == ':')
  {
    PiecesAfterFirst(q, ':');
    if |q| == 1 {
      LastPiece(id, k, q[0]);
    } else {
      NextPiece(id, k, q[0], Join(q[1..], ':'));
      PiecesAfterFirst(q[1..], ':');
      var e0 := k + |q[0]| + 1;
      if |q| == 2 {
        LastPiece(id, e0, q[1]);
      } else {
        NextPiece(id, e0, q[1], Join(q[2..], ':'));
      }
    }
  }

  /** A piece followed by a colon at offset `k`. */
  lemma NextPiece(t: string, k: nat, piece: string, rest: string)
    requires k <= |t| && t[k..] == piece + [':'] + rest
    ensures k + |piece| < |t| && t[k..k + |piece|] == piece && t[k + |piece|] == ':'
    ensures t[k + |piece| + 1..] == rest
  {
    assert t[k..][..|piece|] == piece;
    assert t[k..][|piece| + 1..] == rest;
  }

  /** A piece that ends the text at offset `k`. */
  lemma LastPiece(t: string, k: nat, piece: string)
    requires k <= |t| && t[k..] == piece
    ensures k + |piece| == |t| && t[k..k + |piece|] == piece
  {
  }

  /** The joined text is the first piece, then the separator and the join of
      the rest when there is more than one piece. */
  lemma {:induction false} JoinCons(parts: seq<string>, sep: char)
    requires |parts| > 1
    ensures Join(parts, sep) == parts[0] + [sep] + Join(parts[1..], sep)
  {
    var init := parts[..|parts| - 1];
    assert parts[1..][..|parts| - 2] == init[1..];
    if |parts| > 2 {
      JoinCons(init, sep);
    }
  }

  /** The first piece ends the joined text or is followed by the separator. */
  lemma PiecesAfterFirst(parts: seq<string>, sep: char)
    requires parts != []
    ensures |parts| == 1 ==> Join(parts, sep) == parts[0]
    ensures |parts| > 1 ==> Join(parts, sep) == parts[0] + [sep] + Join(parts[1..], sep)
    ensures |parts| > 1 ==> |parts[1]| <= |Join(parts[1..], sep)| && Join(parts[1..], sep)[..|parts[1]|] == parts[1]
  {
    if |parts| > 1 {
      JoinCons(parts, sep);
      JoinPrefix(parts[1..], sep);
    }
  }

  /** The first piece starts the joined text. */
  lemma {:induction false} JoinPrefix(parts: seq<string>, sep: char)
    requires parts != []
    ensures |parts[0]| <= |Join(parts, sep)| && Join(parts, sep)[..|parts[0]|] == parts[0]
  {
    if |parts| > 1 {
      JoinPrefix(parts[..|parts| - 1], sep);
    }
  }

  /** A Stremio id `<imdb>:<season>:<episode>` parses back into its pieces. */
  lemma ParseRoundTrip(baseId: string, season: string, episode: string)
    requires NoSep(baseId, ':') && NoSep(season, ':') && NoSep(episode, ':')
    ensures ParseSeasonEpisode(baseId + ":" + season + ":" + episode)
         == Parsed(baseId, Some(season), Some(episode))
  {
    var parts := [baseId, season, episode];
    assert parts[..2] == [baseId, season] && parts[..2][..1] == [baseId];
    assert Join([baseId], ':') == baseId;
    assert Join(parts[..2], ':') == baseId + [':'] + season;
    assert Join(parts, ':') == baseId + [':'] + season + [':'] + episode;
    SplitJoin(parts, ':');
  }

  /** A movie id has no colon and parses to itself with no coordinates. */
  lemma ParseMovieId(id: string)
    requires NoSep(id, ':')
    ensures ParseSeasonEpisode(id) == Parsed(id, None, None)
  {
    SplitJoin([id], ':');
    assert Join([id], ':') == id;
  }
}
