/** The Stremio catalog: the metadata values assigned to hoster files, of the
    requested type and with an IMDb (`tt`) id, each id once, in the order of
    the files, at most 100. The handler of the stabilny snapshot also skips
    files whose group is hidden; the other snapshot passes no hidden keys. */
module Catalog {
  import opened Strings
  import opened Records

  const CatalogLimit: nat := 100

  predicate StartsWith(s: string, prefix: string) {
    |prefix| <= |s| && s[..|prefix|] == prefix
  }

  /** A file contributes its metadata value to the catalog. */
  predicate Admits(f: Download, key: Download -> string, md: map<string, Meta>,
                   hidden: set<string>, mediaType: string) {
    key(f) !in hidden && f.id in md && StartsWith(md[f.id].id, "tt") && md[f.id].mediaType == mediaType
  }

  /** The metadata values the loop considers, duplicates included. */
  function Candidates(files: seq<Download>, key: Download -> string, md: map<string, Meta>,
                      hidden: set<string>, mediaType: string): seq<Meta>
  {
    if files == [] then []
    else
      var f := files[|files| - 1];
      Candidates(files[..|files| - 1], key, md, hidden, mediaType)
      + (if Admits(f, key, md, hidden, mediaType) then [md[f.id]] else [])
  }

  function Ids(ms: seq<Meta>): set<string> {
    set m | m in ms :: m.id
  }

  /** The first value of each id, in order. */
  function FirstOfEachId(ms: seq<Meta>): seq<Meta> {
    if ms == [] then []
    else
      var d := FirstOfEachId(ms[..|ms| - 1]);
      if ms[|ms| - 1].id in Ids(d) then d else d + [ms[|ms| - 1]]
  }

  /** The catalog response. */
  function CatalogOf(files: seq<Download>, key: Download -> string, md: map<string, Meta>,
                     hidden: set<string>, mediaType: string): seq<Meta>
  {
    var d := FirstOfEachId(Candidates(files, key, md, hidden, mediaType));
    if |d| <= CatalogLimit then d else d[..CatalogLimit]
  }

  /** The catalog loop with its `unique` set, then `slice(0, 100)`. */
  method CollectCatalog(files: seq<Download>, key: Download -> string, md: map<string, Meta>,
                        hidden: set<string>, mediaType: string) returns (metas: seq<Meta>)
    ensures metas == CatalogOf(files, key, md, hidden, mediaType)
  {
    var all: seq<Meta> := [];
    var unique: set<string> := {};
    var i := 0;
    while i < |files|
      invariant 0 <= i <= |files|
      invariant all == FirstOfEachId(Candidates(files[..i], key, md, hidden, mediaType))
      invariant unique == Ids(all)
    {
      var f := files[i];
      ghost var c := Candidates(files[..i], key, md, hidden, mediaType);
      assert files[..i + 1][..i] == files[..i];
      assert Candidates(files[..i + 1], key, md, hidden, mediaType)
          == c + (if Admits(f, key, md, hidden, mediaType) then [md[f.id]] else []);
      if !Admits(f, key, md, hidden, mediaType) {
        assert c + [] == c;
      }
      if key(f) !in hidden && f.id in md && StartsWith(md[f.id].id, "tt") && md[f.id].mediaType == mediaType {
        var meta := md[f.id];
        assert (c + [meta])[..|c|] == c;
        if meta.id !in unique {
          IdsOfAppend(all, meta);
          unique := unique + {meta.id};
          all := all + [meta];
        }
      }
      i := i + 1;
    }
    assert files[..i] == files;
    metas := if |all| <= CatalogLimit then all else all[..CatalogLimit];
  }

  // ---------------------------------------------------------------------
  // What the catalog holds.

  predicate DistinctIds(ms: seq<Meta>) {
    forall i, j :: 0 <= i < j < |ms| ==> ms[i].id != ms[j].id
  }

  lemma {:induction false} IdsOfAppend(d: seq<Meta>, m: Meta)
    ensures Ids(d + [m]) == Ids(d) + {m.id}
  {
    assert forall x :: x in d + [m] <==> x in d || x == m;
  }

  /** Each id once; every value of the result is a candidate; every
      candidate's id is present. */
  lemma {:induction false} FirstOfEachIdSpec(ms: seq<Meta>)
    ensures DistinctIds(FirstOfEachId(ms))
    ensures forall m :: m in FirstOfEachId(ms) ==> m in ms
    ensures Ids(FirstOfEachId(ms)) == Ids(ms)
  {
    if ms != [] {
      var init, m := ms[..|ms| - 1], ms[|ms| - 1];
      FirstOfEachIdSpec(init);
      var d := FirstOfEachId(init);
      IdsOfAppend(init, m);
      assert ms == init + [m];
      if m.id !in Ids(d) {
        IdsOfAppend(d, m);
        forall i | 0 <= i < |d| ensures d[i].id != m.id {
          assert d[i] in d;
        }
      }
    }
  }

  /** The value kept for an id is the first candidate with that id. */
  lemma {:induction false} FirstOfEachIdIsFirst(ms: seq<Meta>, e: Meta)
    requires e in FirstOfEachId(ms)
    ensures exists i :: 0 <= i < |ms| && ms[i] == e && forall j :: 0 <= j < i ==> ms[j].id != e.id
  {
    var init, m := ms[..|ms| - 1], ms[|ms| - 1];
    var d := FirstOfEachId(init);
    FirstOfEachIdSpec(init);
    if e in d {
      FirstOfEachIdIsFirst(init, e);
      var i :| 0 <= i < |init| && init[i] == e && forall j :: 0 <= j < i ==> init[j].id != e.id;
      assert ms[i] == e;
      assert forall j :: 0 <= j < i ==> ms[j] == init[j];
    } else {
      assert e == m && m.id !in Ids(d);
      forall j | 0 <= j < |ms| - 1 ensures ms[j].id != e.id {
        assert init[j] in init && init[j].id in Ids(init);
      }
    }
  }

  /** Every candidate is admitted by some file. */
  lemma {:induction false} CandidatesAdmitted(files: seq<Download>, key: Download -> string,
                                              md: map<string, Meta>, hidden: set<string>,
                                              mediaType: string, m: Meta)
    requires m in Candidates(files, key, md, hidden, mediaType)
    ensures exists f :: f in files && Admits(f, key, md, hidden, mediaType) && md[f.id] == m
  {
    var init, f := files[..|files| - 1], files[|files| - 1];
    assert files == init + [f];
    if m in Candidates(init, key, md, hidden, mediaType) {
      CandidatesAdmitted(init, key, md, hidden, mediaType, m);
    }
  }

  /** And every admitting file's value is a candidate. */
  lemma {:induction false} AdmittedCandidates(files: seq<Download>, key: Download -> string,
                                              md: map<string, Meta>, hidden: set<string>,
                                              mediaType: string, f: Download)
    requires f in files && Admits(f, key, md, hidden, mediaType)
    ensures md[f.id] in Candidates(files, key, md, hidden, mediaType)
  {
    var init := files[..|files| - 1];
    assert files == init + [files[|files| - 1]];
    if f != files[|files| - 1] {
      AdmittedCandidates(init, key, md, hidden, mediaType, f);
    }
  }

  /** The catalog has at most 100 entries with distinct `tt` ids of the
      requested type, each the value of a file outside the hidden groups,
      each the first value with its id. It is the first 100 (or all) of
      the first-of-each-id list. */
  lemma CatalogSpec(files: seq<Download>, key: Download -> string, md: map<string, Meta>,
                    hidden: set<string>, mediaType: string)
    ensures var r := CatalogOf(files, key, md, hidden, mediaType);
      |r| <= CatalogLimit && DistinctIds(r)
      && forall m :: m in r ==>
           StartsWith(m.id, "tt") && m.mediaType == mediaType
           && exists f :: f in files && key(f) !in hidden && f.id in md && md[f.id] == m
    ensures var d := FirstOfEachId(Candidates(files, key, md, hidden, mediaType));
      var r := CatalogOf(files, key, md, hidden, mediaType);
      r <= d && |r| == (if |d| <= CatalogLimit then |d| else CatalogLimit)
  {
    var c := Candidates(files, key, md, hidden, mediaType);
    var d := FirstOfEachId(c);
    FirstOfEachIdSpec(c);
    var r := CatalogOf(files, key, md, hidden, mediaType);
    assert forall m :: m in r ==> m in d;
    forall m | m in r
      ensures StartsWith(m.id, "tt") && m.mediaType == mediaType
      ensures exists f :: f in files && key(f) !in hidden && f.id in md && md[f.id] == m
    {
      CandidatesAdmitted(files, key, md, hidden, mediaType, m);
    }
  }

  /** The candidates of a list of files are those of its parts, in order. */
  lemma {:induction false} CandidatesAppend(a: seq<Download>, b: seq<Download>, key: Download -> string,
                                            md: map<string, Meta>, hidden: set<string>, mediaType: string)
    ensures Candidates(a + b, key, md, hidden, mediaType)
         == Candidates(a, key, md, hidden, mediaType) + Candidates(b, key, md, hidden, mediaType)
    decreases |b|
  {
    if b == [] {
      assert a + b == a;
    } else {
      var b' := b[..|b| - 1];
      assert (a + b)[..|a + b| - 1] == a + b';
      CandidatesAppend(a, b', key, md, hidden, mediaType);
    }
  }

  /** Later values never displace or reorder earlier ones. */
  lemma {:induction false} FirstOfEachIdPrefix(a: seq<Meta>, b: seq<Meta>)
    ensures FirstOfEachId(a) <= FirstOfEachId(a + b)
    decreases |b|
  {
    if b == [] {
      assert a + b == a;
    } else {
      var b' := b[..|b| - 1];
      assert (a + b)[..|a + b| - 1] == a + b';
      FirstOfEachIdPrefix(a, b');
    }
  }

  /** First-occurrence order: the catalog of the first files is a prefix of
      the catalog of all of them, so entries brought by earlier files come
      first, and more files only add entries after them, up to the cap. */
  lemma CatalogPrefix(a: seq<Download>, b: seq<Download>, key: Download -> string,
                      md: map<string, Meta>, hidden: set<string>, mediaType: string)
    ensures CatalogOf(a, key, md, hidden, mediaType) <= CatalogOf(a + b, key, md, hidden, mediaType)
  {
    CandidatesAppend(a, b, key, md, hidden, mediaType);
    var ca := Candidates(a, key, md, hidden, mediaType);
    var cb := Candidates(b, key, md, hidden, mediaType);
    FirstOfEachIdPrefix(ca, cb);
  }

  /** Every value a file admits is listed by id, unless 100 entries came
      first. */
  lemma CatalogComplete(files: seq<Download>, key: Download -> string, md: map<string, Meta>,
                        hidden: set<string>, mediaType: string, f: Download)
    requires f in files && Admits(f, key, md, hidden, mediaType)
    ensures var d := FirstOfEachId(Candidates(files, key, md, hidden, mediaType));
      md[f.id].id in Ids(d)
      && (|d| <= CatalogLimit ==> md[f.id].id in Ids(CatalogOf(files, key, md, hidden, mediaType)))
  {
    AdmittedCandidates(files, key, md, hidden, mediaType, f);
    FirstOfEachIdSpec(Candidates(files, key, md, hidden, mediaType));
  }
}
