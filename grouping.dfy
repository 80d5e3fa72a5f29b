/** The group reconciler behind the `/manager` dashboard: hoster files are
    gathered into groups by normalised key, the groups are ordered by
    descending file count, and hidden groups are filtered out.

    The reference functions (`Keys`, `Members`, `LastMeta`, `GroupOf`) say
    declaratively what a group is; `BuildGroups` is the dictionary-building
    loop of the handler, proved to produce exactly those groups. */
module Grouping {
  import opened Strings
  import opened Normalize
  import opened Records

  /** A dashboard group. The three metadata fields start out null and are
      overwritten by every member that has a metadata entry. */
  datatype Group = Group(key: string, displayName: string, files: seq<Download>,
                         assignedId: Option<string>, poster: Option<string>,
                         detectedName: Option<string>)

  /** The key the handler groups by: `getNormalizedKey(f.filename)`. */
  function KeyOf(f: Download): string {
    NormalizedKey(f.filename)
  }

  /** The name a new group shows: `getDisplayTitle(f.filename)`. */
  function TitleOf(f: Download): string {
    DisplayTitle(f.filename)
  }

  // ---------------------------------------------------------------------
  // What the groups are. The definitions take the key and title functions
  // as parameters, so the reasoning below holds for any key function; the
  // handlers pass `KeyOf` and `TitleOf`.

  /** The distinct keys of `s`, in first-seen order. */
  function Keys(s: seq<Download>, key: Download -> string): seq<string> {
    if s == [] then []
    else
      var ks := Keys(s[..|s| - 1], key);
      if key(s[|s| - 1]) in ks then ks else ks + [key(s[|s| - 1])]
  }

  /** The files of `s` whose key is `k`, in order. */
  function Members(s: seq<Download>, key: Download -> string, k: string): seq<Download> {
    if s == [] then []
    else Members(s[..|s| - 1], key, k) + (if key(s[|s| - 1]) == k then [s[|s| - 1]] else [])
  }

  /** The metadata entry of the last file with key `k` that has one. */
  function LastMeta(s: seq<Download>, key: Download -> string, md: map<string, Meta>, k: string): Option<Meta> {
    if s == [] then None
    else if key(s[|s| - 1]) == k && s[|s| - 1].id in md then Some(md[s[|s| - 1].id])
    else LastMeta(s[..|s| - 1], key, md, k)
  }

  function AssignedId(m: Option<Meta>): Option<string> {
    if m.Some? then Some(m.value.id) else None
  }

  function PosterOf(m: Option<Meta>): Option<string> {
    if m.Some? then m.value.poster else None
  }

  function DetectedName(m: Option<Meta>): Option<string> {
    if m.Some? then Some(m.value.name) else None
  }

  /** The group of key `k`: display name from its first member, metadata
      fields from the last member that has an entry. */
  function GroupOf(s: seq<Download>, key: Download -> string, title: Download -> string,
                   md: map<string, Meta>, k: string): Group
    requires Members(s, key, k) != []
  {
    var ms := Members(s, key, k);
    var m := LastMeta(s, key, md, k);
    Group(k, title(ms[0]), ms, AssignedId(m), PosterOf(m), DetectedName(m))
  }

  /** All groups, in first-seen key order. */
  function Groups(s: seq<Download>, key: Download -> string, title: Download -> string,
                  md: map<string, Meta>): seq<Group>
  {
    var ks := Keys(s, key);
    seq(|ks|, j requires 0 <= j < |ks| =>
      (KeysAreMemberKeys(s, key, ks[j]); GroupOf(s, key, title, md, ks[j])))
  }

  predicate Distinct(ks: seq<string>) {
    forall i, j :: 0 <= i < j < |ks| ==> ks[i] != ks[j]
  }

  // ---------------------------------------------------------------------
  // Properties of the reference functions.

  /** A key has a group exactly when some file has that key. */
  lemma {:induction false} KeysAreMemberKeys(s: seq<Download>, key: Download -> string, k: string)
    ensures k in Keys(s, key) <==> Members(s, key, k) != []
  {
    if s != [] {
      KeysAreMemberKeys(s[..|s| - 1], key, k);
    }
  }

  lemma {:induction false} KeysDistinct(s: seq<Download>, key: Download -> string)
    ensures Distinct(Keys(s, key))
  {
    if s != [] {
      KeysDistinct(s[..|s| - 1], key);
    }
  }

  /** Every file lands in the group of its own key and in no other. */
  lemma {:induction false} MembersExactly(s: seq<Download>, key: Download -> string, k: string, d: Download)
    ensures d in Members(s, key, k) <==> d in s && key(d) == k
  {
    if s != [] {
      MembersExactly(s[..|s| - 1], key, k, d);
      assert s == s[..|s| - 1] + [s[|s| - 1]];
    }
  }

  /** The number of member files summed over the keys `ks`. */
  function MemberCount(s: seq<Download>, key: Download -> string, ks: seq<string>): nat {
    if ks == [] then 0 else MemberCount(s, key, ks[..|ks| - 1]) + |Members(s, key, ks[|ks| - 1])|
  }

  lemma {:induction false} MemberCountStep(s: seq<Download>, key: Download -> string, f: Download, ks: seq<string>)
    requires Distinct(ks)
    ensures MemberCount(s + [f], key, ks) == MemberCount(s, key, ks) + (if key(f) in ks then 1 else 0)
  {
    if ks != [] {
      var init, last := ks[..|ks| - 1], ks[|ks| - 1];
      assert Distinct(init);
      MemberCountStep(s, key, f, init);
      GroupStep(s, key, f, map[], last);
      assert key(f) in ks <==> key(f) in init || key(f) == last by {
        assert ks == init + [last];
      }
      assert last !in init;
    }
  }

  /** Total membership equals the number of hoster files. */
  lemma {:induction false} TotalMembership(s: seq<Download>, key: Download -> string)
    ensures MemberCount(s, key, Keys(s, key)) == |s|
  {
    if s != [] {
      var init, f := s[..|s| - 1], s[|s| - 1];
      assert s == init + [f];
      TotalMembership(init, key);
      KeysDistinct(init, key);
      MemberCountStep(init, key, f, Keys(init, key));
      if key(f) !in Keys(init, key) {
        KeysAreMemberKeys(init, key, key(f));
        var ks := Keys(init, key) + [key(f)];
        assert ks[..|ks| - 1] == Keys(init, key);
        assert Members(s, key, key(f)) == [f];
      }
    }
  }

  /** Each file is in the group of its own key, each group holds only files
      of its key, and no two groups share a key; so every hoster file is in
      exactly one group. */
  lemma GroupsSpec(s: seq<Download>, key: Download -> string, title: Download -> string, md: map<string, Meta>)
    ensures var gs := Groups(s, key, title, md);
      (forall i :: 0 <= i < |s| ==> exists j :: 0 <= j < |gs| && gs[j].key == key(s[i]) && s[i] in gs[j].files)
      && (forall j, d :: 0 <= j < |gs| && d in gs[j].files ==> key(d) == gs[j].key)
      && (forall j1, j2 :: 0 <= j1 < j2 < |gs| ==> gs[j1].key != gs[j2].key)
  {
    var gs := Groups(s, key, title, md);
    var ks := Keys(s, key);
    KeysDistinct(s, key);
    forall i | 0 <= i < |s|
      ensures exists j :: 0 <= j < |gs| && gs[j].key == key(s[i]) && s[i] in gs[j].files
    {
      var k := key(s[i]);
      MembersExactly(s, key, k, s[i]);
      KeysAreMemberKeys(s, key, k);
      var j :| 0 <= j < |ks| && ks[j] == k;
      assert gs[j].key == k && gs[j].files == Members(s, key, k);
    }
    forall j, d | 0 <= j < |gs| && d in gs[j].files ensures key(d) == gs[j].key {
      MembersExactly(s, key, ks[j], d);
    }
  }

  /** The display name comes from the first file with the key. */
  lemma DisplayNameFromFirst(s: seq<Download>, key: Download -> string, title: Download -> string,
                             md: map<string, Meta>, i: nat)
    requires i < |s|
    requires forall j :: 0 <= j < i ==> key(s[j]) != key(s[i])
    ensures Members(s, key, key(s[i])) != []
    ensures GroupOf(s, key, title, md, key(s[i])).displayName == title(s[i])
  {
    MembersFirst(s, key, key(s[i]), i);
  }

  lemma {:induction false} MembersFirst(s: seq<Download>, key: Download -> string, k: string, i: nat)
    requires i < |s| && key(s[i]) == k
    requires forall j :: 0 <= j < i ==> key(s[j]) != k
    ensures Members(s, key, k) != [] && Members(s, key, k)[0] == s[i]
  {
    var init := s[..|s| - 1];
    if i == |s| - 1 {
      NoMembers(init, key, k);
    } else {
      MembersFirst(init, key, k, i);
    }
  }

  lemma {:induction false} NoMembers(s: seq<Download>, key: Download -> string, k: string)
    requires forall j :: 0 <= j < |s| ==> key(s[j]) != k
    ensures Members(s, key, k) == []
  {
    if s != [] {
      NoMembers(s[..|s| - 1], key, k);
    }
  }

  /** The metadata fields stay null exactly when no member has an entry. */
  lemma {:induction false} LastMetaNone(s: seq<Download>, key: Download -> string, md: map<string, Meta>, k: string)
    ensures LastMeta(s, key, md, k).None? <==>
      forall j :: 0 <= j < |s| && key(s[j]) == k ==> s[j].id !in md
  {
    if s != [] {
      var init := s[..|s| - 1];
      LastMetaNone(init, key, md, k);
      assert forall j :: 0 <= j < |init| ==> init[j] == s[j];
    }
  }

  /** Otherwise they come from the last member with an entry. */
  lemma {:induction false} LastMetaIsLast(s: seq<Download>, key: Download -> string, md: map<string, Meta>, k: string)
    requires LastMeta(s, key, md, k).Some?
    ensures exists j :: 0 <= j < |s| && key(s[j]) == k && s[j].id in md
                     && LastMeta(s, key, md, k) == Some(md[s[j].id])
                     && forall j' :: j < j' < |s| && key(s[j']) == k ==> s[j'].id !in md
  {
    var init := s[..|s| - 1];
    var last := |s| - 1;
    if key(s[last]) == k && s[last].id in md {
      assert LastMeta(s, key, md, k) == Some(md[s[last].id]);
    } else {
      LastMetaIsLast(init, key, md, k);
      var j :| 0 <= j < |init| && key(init[j]) == k && init[j].id in md
        && LastMeta(init, key, md, k) == Some(md[init[j].id])
        && forall j' :: j < j' < |init| && key(init[j']) == k ==> init[j'].id !in md;
      assert s[j] == init[j];
      assert forall j' :: j < j' < |s| && key(s[j']) == k ==> s[j'].id !in md by {
        assert forall j' :: j < j' < |init| ==> s[j'] == init[j'];
      }
    }
  }

  // ---------------------------------------------------------------------
  // The loop of the handler.

  /** Appending one file changes only the group of its key. */
  lemma GroupStep(s: seq<Download>, key: Download -> string, f: Download, md: map<string, Meta>, k: string)
    ensures (s + [f])[..|s|] == s
    ensures Members(s + [f], key, k) == Members(s, key, k) + (if key(f) == k then [f] else [])
    ensures LastMeta(s + [f], key, md, k) ==
      if key(f) == k && f.id in md then Some(md[f.id]) else LastMeta(s, key, md, k)
    ensures Keys(s + [f], key) == if key(f) in Keys(s, key) then Keys(s, key) else Keys(s, key) + [key(f)]
  {
    assert (s + [f])[..|s|] == s;
  }

  /** A group as the handler creates it for a new key. */
  function NewGroup(k: string, name: string): Group {
    Group(k, name, [], None, None, None)
  }

  /** The loop body on one group: push the file, and copy its metadata entry
      if it has one. */
  function AddFile(g: Group, f: Download, md: map<string, Meta>): Group {
    var g' := g.(files := g.files + [f]);
    if f.id in md then
      g'.(assignedId := Some(md[f.id].id), poster := md[f.id].poster, detectedName := Some(md[f.id].name))
    else g'
  }

  /** The group of `f`'s key after `f` is `AddFile` of the group before it. */
  lemma GroupOfStep(s: seq<Download>, key: Download -> string, title: Download -> string,
                    md: map<string, Meta>, f: Download)
    ensures Members(s + [f], key, key(f)) != []
    ensures GroupOf(s + [f], key, title, md, key(f)) ==
      AddFile(if Members(s, key, key(f)) == [] then NewGroup(key(f), title(f))
              else GroupOf(s, key, title, md, key(f)), f, md)
  {
    var k := key(f);
    GroupStep(s, key, f, md, k);
    if Members(s, key, k) == [] {
      LastMetaNone(s, key, md, k);
      assert LastMeta(s, key, md, k) == None by {
        MembersNone(s, key, k);
      }
    }
  }

  lemma {:induction false} MembersNone(s: seq<Download>, key: Download -> string, k: string)
    requires Members(s, key, k) == []
    ensures forall j :: 0 <= j < |s| ==> key(s[j]) != k
  {
    if s != [] {
      MembersNone(s[..|s| - 1], key, k);
      assert forall j :: 0 <= j < |s| - 1 ==> s[j] == s[..|s| - 1][j];
    }
  }

  /** The loop invariant: `order` lists the keys seen so far and `groups`
      holds the group of each. */
  ghost predicate GroupsSoFar(s: seq<Download>, key: Download -> string, title: Download -> string,
                              md: map<string, Meta>, order: seq<string>, groups: map<string, Group>) {
    order == Keys(s, key)
    && (forall k :: k in groups <==> k in order)
    && forall k :: k in groups ==> Members(s, key, k) != [] && groups[k] == GroupOf(s, key, title, md, k)
  }

  lemma GroupsSoFarStep(s: seq<Download>, key: Download -> string, title: Download -> string,
                        md: map<string, Meta>, order: seq<string>, groups: map<string, Group>, f: Download)
    requires GroupsSoFar(s, key, title, md, order, groups)
    ensures var k := key(f);
      var g := if k in groups then groups[k] else NewGroup(k, title(f));
      var order' := if k in groups then order else order + [k];
      GroupsSoFar(s + [f], key, title, md, order', groups[k := AddFile(g, f, md)])
  {
    var k := key(f);
    var g := if k in groups then groups[k] else NewGroup(k, title(f));
    var order' := if k in groups then order else order + [k];
    var groups' := groups[k := AddFile(g, f, md)];
    KeysAreMemberKeys(s, key, k);
    GroupStep(s, key, f, md, k);
    assert order' == Keys(s + [f], key);
    assert forall k' :: k' in groups' <==> k' in order';
    GroupOfStep(s, key, title, md, f);
    assert groups'[k] == GroupOf(s + [f], key, title, md, k);
    forall k' | k' in groups'
      ensures Members(s + [f], key, k') != [] && groups'[k'] == GroupOf(s + [f], key, title, md, k')
    {
      if k' != k {
        OtherGroupUnchanged(s, key, title, md, f, k');
      }
    }
  }

  /** Appending a file leaves the groups of the other keys as they were. */
  lemma OtherGroupUnchanged(s: seq<Download>, key: Download -> string, title: Download -> string,
                            md: map<string, Meta>, f: Download, k: string)
    requires k != key(f) && Members(s, key, k) != []
    ensures Members(s + [f], key, k) != []
    ensures GroupOf(s + [f], key, title, md, k) == GroupOf(s, key, title, md, k)
  {
    GroupStep(s, key, f, md, k);
  }

  /** The `/manager` grouping loop over the hoster files: a dictionary keyed
      by `key`, listed in insertion order. */
  method BuildGroups(files: seq<Download>, key: Download -> string, title: Download -> string,
                     md: map<string, Meta>) returns (gs: seq<Group>)
    ensures gs == Groups(files, key, title, md)
  {
    var order: seq<string> := [];
    var groups: map<string, Group> := map[];
    var i := 0;
    while i < |files|
      invariant 0 <= i <= |files|
      invariant GroupsSoFar(files[..i], key, title, md, order, groups)
    {
      var f := files[i];
      GroupsSoFarStep(files[..i], key, title, md, order, groups, f);
      var k := key(f);
      var g := if k in groups then groups[k] else NewGroup(k, title(f));
      if k !in groups {
        order := order + [k];
      }
      groups := groups[k := AddFile(g, f, md)];
      assert files[..i + 1] == files[..i] + [f];
      i := i + 1;
    }
    assert files[..i] == files;
    gs := Values(order, groups);
  }

  /** `Object.values(groups)`: the groups in key insertion order. */
  method Values(order: seq<string>, groups: map<string, Group>) returns (gs: seq<Group>)
    requires forall k :: k in order ==> k in groups
    ensures |gs| == |order|
    ensures forall n :: 0 <= n < |order| ==> gs[n] == groups[order[n]]
  {
    gs := [];
    var j := 0;
    while j < |order|
      invariant 0 <= j <= |order|
      invariant |gs| == j
      invariant forall n :: 0 <= n < j ==> gs[n] == groups[order[n]]
    {
      gs := gs + [groups[order[j]]];
      j := j + 1;
    }
  }

  // ---------------------------------------------------------------------
  // The handler as written keys its groups in a plain object literal.

  /** The one property inherited from `Object.prototype` whose name a
      normalised key (letters and `2 6 8 9` only) can spell. */
  predicate InheritedKey(k: string) {
    k == "constructor"
  }

  /** The grouping loop as written: `groups[key]` on a plain object finds
      the inherited `constructor` function, so no group is created for that
      key and pushing onto its missing `files` throws. `None` is the thrown
      `TypeError`. */
  method BuildGroupsAsWritten(files: seq<Download>, key: Download -> string, title: Download -> string,
                              md: map<string, Meta>) returns (r: Option<seq<Group>>)
    ensures r.None? <==> exists i :: 0 <= i < |files| && InheritedKey(key(files[i]))
    ensures r.Some? ==> r.value == Groups(files, key, title, md)
  {
    var order: seq<string> := [];
    var groups: map<string, Group> := map[];
    var i := 0;
    while i < |files|
      invariant 0 <= i <= |files|
      invariant GroupsSoFar(files[..i], key, title, md, order, groups)
      invariant forall j :: 0 <= j < i ==> !InheritedKey(key(files[j]))
      invariant "constructor" !in groups
    {
      var f := files[i];
      var k := key(f);
      if k !in groups && InheritedKey(k) {
        return None;
      }
      GroupsSoFarStep(files[..i], key, title, md, order, groups, f);
      var g := if k in groups then groups[k] else NewGroup(k, title(f));
      if k !in groups {
        order := order + [k];
      }
      groups := groups[k := AddFile(g, f, md)];
      assert files[..i + 1] == files[..i] + [f];
      i := i + 1;
    }
    assert files[..i] == files;
    var gs := Values(order, groups);
    r := Some(gs);
  }

  /** A release named after the title "Constructor" has the key
      `constructor`, so the handler as written throws on any download list
      holding it, while `BuildGroups` gives it a group of its own. */
  lemma ConstructorTitleKey(d: Download)
    requires d.filename == "Constructor.S01E01.mkv"
    ensures InheritedKey(KeyOf(d))
  {
    var t, rest := "Constructor", "S01E01.mkv";
    assert d.filename == t + ['.'] + rest;
    assert MarkerAt(rest, 0, TitleMarkers);
    TitleKey(t, '.', rest);
    ConstructorSpelling();
  }

  lemma ConstructorSpelling()
    ensures KeepKeyChars(Lower(DeLeet("Constructor"))) == "constructor"
  {
    var t := "Constructor";
    var d := DeLeet(t);
    assert |d| == |t|;
    forall i | 0 <= i < |t| ensures d[i] == t[i] {
      assert !IsLeet(t[i]);
    }
    assert d == t;
    assert Lower(t) == "constructor";
    var k := "constructor";
    assert forall i :: 0 <= i < |k| ==> IsKeyChar(k[i]);
  }

  // ---------------------------------------------------------------------
  // Dashboard order and the hidden filter.

  function Count(g: Group): nat {
    |g.files|
  }

  predicate SortedByCount(s: seq<Group>) {
    forall i, j :: 0 <= i < j < |s| ==> Count(s[i]) >= Count(s[j])
  }

  /** Insert `g` before the first group that has no more files than it. */
  function InsertByCount(g: Group, s: seq<Group>): seq<Group> {
    if s == [] || Count(s[0]) <= Count(g) then [g] + s
    else [s[0]] + InsertByCount(g, s[1..])
  }

  /** `sort((a, b) => b.files.length - a.files.length)`: a stable sort by
      descending file count. */
  function SortByCount(gs: seq<Group>): seq<Group> {
    if gs == [] then [] else InsertByCount(gs[0], SortByCount(gs[1..]))
  }

  /** The groups of `s` with exactly `c` files, in order. */
  function WithCount(s: seq<Group>, c: nat): seq<Group> {
    if s == [] then [] else (if Count(s[0]) == c then [s[0]] else []) + WithCount(s[1..], c)
  }

  lemma {:induction false} InsertKeepsGroups(g: Group, s: seq<Group>)
    ensures multiset(InsertByCount(g, s)) == multiset(s) + multiset{g}
  {
    if s != [] && Count(s[0]) > Count(g) {
      InsertKeepsGroups(g, s[1..]);
      assert s == [s[0]] + s[1..];
    }
  }

  lemma {:induction false} InsertKeepsCountOrder(g: Group, s: seq<Group>, c: nat)
    ensures WithCount(InsertByCount(g, s), c) == (if Count(g) == c then [g] else []) + WithCount(s, c)
  {
    var r := InsertByCount(g, s);
    if s == [] || Count(s[0]) <= Count(g) {
      assert r[1..] == s;
    } else {
      InsertKeepsCountOrder(g, s[1..], c);
      assert r[1..] == InsertByCount(g, s[1..]);
    }
  }

  lemma {:induction false} InsertKeepsSorted(g: Group, s: seq<Group>)
    requires SortedByCount(s)
    ensures SortedByCount(InsertByCount(g, s))
  {
    var r := InsertByCount(g, s);
    if s != [] && Count(s[0]) > Count(g) {
      InsertKeepsSorted(g, s[1..]);
      InsertKeepsGroups(g, s[1..]);
      var t := InsertByCount(g, s[1..]);
      assert r == [s[0]] + t;
      forall j | 0 < j < |r| ensures Count(r[0]) >= Count(r[j]) {
        assert r[j] == t[j - 1];
        assert r[j] in multiset(t);
        if r[j] != g {
          assert r[j] in multiset(s[1..]);
          var m :| 0 <= m < |s[1..]| && s[1..][m] == r[j];
          assert s[m + 1] == r[j];
        }
      }
    }
  }

  /** The dashboard order has non-increasing file counts, holds the same
      groups, and keeps groups of equal count in their first-seen order. */
  lemma {:induction false} SortByCountSpec(gs: seq<Group>)
    ensures SortedByCount(SortByCount(gs))
    ensures multiset(SortByCount(gs)) == multiset(gs)
    ensures forall c: nat :: WithCount(SortByCount(gs), c) == WithCount(gs, c)
  {
    if gs != [] {
      SortByCountSpec(gs[1..]);
      InsertKeepsSorted(gs[0], SortByCount(gs[1..]));
      InsertKeepsGroups(gs[0], SortByCount(gs[1..]));
      forall c: nat ensures WithCount(SortByCount(gs), c) == WithCount(gs, c) {
        InsertKeepsCountOrder(gs[0], SortByCount(gs[1..]), c);
      }
      assert gs == [gs[0]] + gs[1..];
    }
  }

  /** A group is shown unless its key is hidden and hidden groups are not
      asked for. */
  predicate Shown(g: Group, hidden: set<string>, showHidden: bool) {
    !(g.key in hidden && !showHidden)
  }

  /** The handler's render loop with its `continue` for hidden groups. */
  method VisibleGroups(sorted: seq<Group>, hidden: set<string>, showHidden: bool) returns (cards: seq<Group>)
    ensures cards == Visible(sorted, hidden, showHidden)
  {
    cards := [];
    var i := 0;
    while i < |sorted|
      invariant 0 <= i <= |sorted|
      invariant cards == Visible(sorted[..i], hidden, showHidden)
    {
      assert sorted[..i + 1][..i] == sorted[..i];
      if Shown(sorted[i], hidden, showHidden) {
        cards := cards + [sorted[i]];
      }
      i := i + 1;
    }
    assert sorted[..i] == sorted;
  }

  function Visible(s: seq<Group>, hidden: set<string>, showHidden: bool): seq<Group> {
    if s == [] then []
    else Visible(s[..|s| - 1], hidden, showHidden)
         + (if Shown(s[|s| - 1], hidden, showHidden) then [s[|s| - 1]] else [])
  }

  /** Exactly the shown groups are kept. */
  lemma {:induction false} VisibleMembers(s: seq<Group>, hidden: set<string>, showHidden: bool)
    ensures forall g :: g in Visible(s, hidden, showHidden) <==> g in s && Shown(g, hidden, showHidden)
  {
    if s != [] {
      VisibleMembers(s[..|s| - 1], hidden, showHidden);
      assert s == s[..|s| - 1] + [s[|s| - 1]];
    }
  }

  /** With hidden groups asked for, or none hidden, nothing is filtered. */
  lemma {:induction false} VisibleAll(s: seq<Group>, hidden: set<string>, showHidden: bool)
    requires showHidden || hidden == {}
    ensures Visible(s, hidden, showHidden) == s
  {
    if s != [] {
      VisibleAll(s[..|s| - 1], hidden, showHidden);
      assert s == s[..|s| - 1] + [s[|s| - 1]];
    }
  }

  /** The kept groups stay in order, so the visible list is still sorted by
      count. */
  lemma {:induction false} VisibleSorted(s: seq<Group>, hidden: set<string>, showHidden: bool)
    requires SortedByCount(s)
    ensures SortedByCount(Visible(s, hidden, showHidden))
  {
    if s != [] {
      var init := s[..|s| - 1];
      VisibleSorted(init, hidden, showHidden);
      VisibleMembers(init, hidden, showHidden);
      var v := Visible(s, hidden, showHidden);
      var vi := Visible(init, hidden, showHidden);
      forall i, j | 0 <= i < j < |v| ensures Count(v[i]) >= Count(v[j]) {
        if j < |vi| {
          assert v[i] == vi[i] && v[j] == vi[j];
        } else {
          assert v[i] == vi[i] && v[i] in init;
          var m :| 0 <= m < |init| && init[m] == v[i];
          assert s[m] == v[i] && v[j] == s[|s| - 1];
        }
      }
    }
  }

  /** The dashboard shown by `/manager`. */
  function Dashboard(files: seq<Download>, md: map<string, Meta>, hidden: set<string>,
                     showHidden: bool): seq<Group> {
    Visible(SortByCount(Groups(HostersOnly(files), KeyOf, TitleOf, md)), hidden, showHidden)
  }

  /** The dashboard lists every non-skipped group once, most files first;
      with no hidden keys it is the whole sorted list. */
  lemma DashboardSpec(files: seq<Download>, md: map<string, Meta>, hidden: set<string>, showHidden: bool)
    ensures SortedByCount(Dashboard(files, md, hidden, showHidden))
    ensures forall g :: g in Dashboard(files, md, hidden, showHidden) <==>
      g in Groups(HostersOnly(files), KeyOf, TitleOf, md) && Shown(g, hidden, showHidden)
    ensures hidden == {} ==>
      Dashboard(files, md, hidden, showHidden) == SortByCount(Groups(HostersOnly(files), KeyOf, TitleOf, md))
  {
    var gs := Groups(HostersOnly(files), KeyOf, TitleOf, md);
    SortByCountSpec(gs);
    VisibleSorted(SortByCount(gs), hidden, showHidden);
    VisibleMembers(SortByCount(gs), hidden, showHidden);
    assert forall g :: g in SortByCount(gs) <==> g in gs by {
      assert forall g :: g in SortByCount(gs) <==> g in multiset(SortByCount(gs));
    }
    if hidden == {} {
      VisibleAll(SortByCount(gs), hidden, showHidden);
    }
  }
}
