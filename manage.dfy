/** The two dashboard actions that change state: `/manager/update-group`
    writes one metadata value onto every hoster file of a group, and
    `/manager/toggle-hide` flips a group key in the hidden set. */
module Manage {
  import opened Strings
  import opened Records
  import opened Catalog

  /** The value written when the lookup finds nothing (stabilny snapshot). */
  function ForcedMeta(imdbId: string, groupKey: string): (m: Meta)
    ensures m.id == imdbId && m.poster.None? && m.mediaType == "series"
    ensures StartsWith(m.name, "Wymuszono: ") && m.name[|"Wymuszono: "|..] == groupKey
  {
    Meta(imdbId, "Wymuszono: " + groupKey, None, "series")
  }

  /** The ids of the files of group `groupKey`. */
  function GroupIds(files: seq<Download>, key: Download -> string, groupKey: string): set<string> {
    set f | f in files && key(f) == groupKey :: f.id
  }

  /** The metadata cache after writing `meta` onto each file of the group. */
  function Assigned(files: seq<Download>, key: Download -> string, md: map<string, Meta>,
                    groupKey: string, meta: Meta): map<string, Meta>
  {
    if files == [] then md
    else
      var f := files[|files| - 1];
      var before := Assigned(files[..|files| - 1], key, md, groupKey, meta);
      if key(f) == groupKey then before[f.id := meta] else before
  }

  /** The update-group loop. */
  method AssignGroup(files: seq<Download>, key: Download -> string, md: map<string, Meta>,
                     groupKey: string, meta: Meta) returns (md': map<string, Meta>)
    ensures md' == Assigned(files, key, md, groupKey, meta)
  {
    md' := md;
    var i := 0;
    while i < |files|
      invariant 0 <= i <= |files|
      invariant md' == Assigned(files[..i], key, md, groupKey, meta)
    {
      assert files[..i + 1][..i] == files[..i];
      if key(files[i]) == groupKey {
        md' := md'[files[i].id := meta];
      }
      i := i + 1;
    }
    assert files[..i] == files;
  }

  /** Exactly the group's files get the value; every other entry is kept,
      and no entry is removed. */
  lemma {:induction false} AssignedSpec(files: seq<Download>, key: Download -> string, md: map<string, Meta>,
                                        groupKey: string, meta: Meta)
    ensures var r := Assigned(files, key, md, groupKey, meta);
      (forall id :: id in r <==> id in md || id in GroupIds(files, key, groupKey))
      && (forall id :: id in GroupIds(files, key, groupKey) ==> r[id] == meta)
      && (forall id :: id in md && id !in GroupIds(files, key, groupKey) ==> r[id] == md[id])
  {
    if files != [] {
      var init, f := files[..|files| - 1], files[|files| - 1];
      AssignedSpec(init, key, md, groupKey, meta);
      assert files == init + [f];
      assert GroupIds(files, key, groupKey)
          == GroupIds(init, key, groupKey) + (if key(f) == groupKey then {f.id} else {});
    }
  }

  /** The hidden set after toggling `k`. */
  function Toggled(hidden: set<string>, k: string): set<string> {
    if k in hidden then hidden - {k} else hidden + {k}
  }

  /** Toggling flips `k` alone, so toggling twice restores the set. */
  lemma ToggledSpec(hidden: set<string>, k: string)
    ensures k in Toggled(hidden, k) <==> k !in hidden
    ensures forall k' :: k' != k ==> (k' in Toggled(hidden, k) <==> k' in hidden)
    ensures Toggled(Toggled(hidden, k), k) == hidden
  {
  }
}
