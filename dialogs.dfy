/** The ignore-list dialog: the list loaded for a source folder, shown one name per line,
    and the removal of the selected lines. */
module Dialogs {
  import opened Wrappers
  import opened FileSystem
  import opened Config

  // ---------------------------------------------------------------------------
  // removing entries by position

  /** The entries of `names` whose positions are not in `drop`, in their order. */
  function Without(names: seq<string>, drop: set<nat>): (r: seq<string>)
    ensures |r| <= |names|
    decreases |names|
  {
    if names == [] then []
    else
      var n := |names| - 1;
      Without(names[..n], drop) + (if n in drop then [] else [names[n]])
  }

  /** The positions below `n` that are not in `drop`, ascending. */
  function Kept(n: nat, drop: set<nat>): seq<nat>
  {
    if n == 0 then [] else Kept(n - 1, drop) + (if n - 1 in drop then [] else [n - 1])
  }

  /** `r` is `names` at the strictly increasing positions `idx`, which are exactly the
      positions outside `drop`. */
  predicate Picks(names: seq<string>, drop: set<nat>, r: seq<string>, idx: seq<nat>)
  {
    && |idx| == |r|
    && (forall k :: 0 <= k < |idx| ==> idx[k] < |names| && r[k] == names[idx[k]])
    && (forall k, l :: 0 <= k < l < |idx| ==> idx[k] < idx[l])
    && (forall i :: 0 <= i < |names| ==> (i in idx <==> i !in drop))
  }

  /** Removing keeps exactly the entries at the positions outside `drop`, in their order:
      nothing else is removed, added, changed or moved. */
  lemma {:induction false} WithoutSpec(names: seq<string>, drop: set<nat>)
    ensures Picks(names, drop, Without(names, drop), Kept(|names|, drop))
    decreases |names|
  {
    if names != [] {
      var n := |names| - 1;
      var init := names[..n];
      WithoutSpec(init, drop);
      var r0, idx0 := Without(init, drop), Kept(n, drop);
      var r, idx := Without(names, drop), Kept(|names|, drop);
      assert forall i :: 0 <= i < n ==> names[i] == init[i];
      forall k | 0 <= k < |idx|
        ensures idx[k] < |names| && r[k] == names[idx[k]]
      {
        if k < |idx0| {
          assert idx[k] == idx0[k] && r[k] == r0[k];
        }
      }
      assert forall i :: 0 <= i < |names| ==> (i in idx <==> i in idx0 || (i == n && n !in drop));
    }
  }

  /** The positions a selection names. */
  function Positions(selected: seq<nat>): set<nat>
  {
    set k | 0 <= k < |selected| :: selected[k]
  }

  /** Strictly increasing positions of entries of a list of `n`: what a list box reports
      as its selection. */
  predicate Selection(selected: seq<nat>, n: nat)
  {
    && (forall k :: 0 <= k < |selected| ==> selected[k] < n)
    && (forall k, l :: 0 <= k < l < |selected| ==> selected[k] < selected[l])
  }

  /** When no dropped position lies below `m`, the first `m` entries stay where they are. */
  lemma {:induction false} WithoutPrefix(names: seq<string>, drop: set<nat>, m: nat)
    requires m <= |names|
    requires forall d :: d in drop ==> d >= m
    ensures |Without(names, drop)| >= m && Without(names, drop)[..m] == names[..m]
    decreases |names|
  {
    if names != [] {
      var n := |names| - 1;
      if m <= n {
        WithoutPrefix(names[..n], drop, m);
        assert names[..n][..m] == names[..m];
      } else {
        WithoutPrefix(names[..n], drop, n);
        assert n !in drop;
        assert names[..n][..n] == names[..n];
        assert Without(names[..n], drop) == names[..n];
        assert names == names[..n] + [names[n]];
      }
    }
  }

  /** `Delete(w, i)` is `w` without its entry `i`. */
  predicate Deleted(w: seq<string>, i: nat, v: seq<string>)
  {
    i < |w| && v == w[..i] + w[i + 1..]
  }

  /** Removing from a list is removing from all but its last entry, then keeping or
      dropping the last. */
  lemma WithoutLast(names: seq<string>, drop: set<nat>)
    requires names != []
    ensures var n := |names| - 1;
      Without(names, drop) == Without(names[..n], drop) + (if n in drop then [] else [names[n]])
  {
  }

  /** `more` is `drop` with position `i` added. Stated by membership, so that the proofs
      below need no reasoning about set union. */
  ghost predicate AddsPosition(drop: set<nat>, i: nat, more: set<nat>)
  {
    forall d :: d in more <==> d in drop || d == i
  }

  /** Deleting the last entry, when every removed position lies beyond it. */
  lemma WithoutDeleteLast(names: seq<string>, drop: set<nat>, more: set<nat>, i: nat)
    requires i == |names| - 1 && (forall d :: d in drop ==> d > i) && AddsPosition(drop, i, more)
    ensures Deleted(Without(names, drop), i, Without(names, more))
  {
    var init := names[..i];
    WithoutPrefix(init, drop, i);
    WithoutPrefix(init, more, i);
    assert init[..i] == init;
    WithoutLast(names, drop);
    WithoutLast(names, more);
    var w := Without(names, drop);
    assert w == init + [names[i]];
    assert w[..i] == init && w[i + 1..] == [];
  }

  /** Appending the same tail to a list and to that list with entry `i` deleted keeps the
      second the first with entry `i` deleted. */
  lemma DeletedAppend(w: seq<string>, i: nat, v: seq<string>, tail: seq<string>)
    requires Deleted(w, i, v)
    ensures Deleted(w + tail, i, v + tail)
  {
    assert (w + tail)[..i] == w[..i];
    assert (w + tail)[i + 1..] == w[i + 1..] + tail;
  }

  /** Deleting an entry before the last one, given the same for the list without its last
      entry. */
  lemma WithoutDeleteInside(names: seq<string>, drop: set<nat>, more: set<nat>, i: nat)
    requires i < |names| - 1 && (|names| - 1 in more <==> |names| - 1 in drop)
    requires Deleted(Without(names[..|names| - 1], drop), i, Without(names[..|names| - 1], more))
    ensures Deleted(Without(names, drop), i, Without(names, more))
  {
    var n := |names| - 1;
    WithoutLast(names, drop);
    WithoutLast(names, more);
    DeletedAppend(Without(names[..n], drop), i, Without(names[..n], more),
                  if n in drop then [] else [names[n]]);
  }

  /** Deleting entry `i` of the list left after removing `drop`, all of whose positions lie
      beyond `i`, removes position `i` of the original list as well. */
  lemma {:induction false} WithoutDeleteAdds(names: seq<string>, drop: set<nat>, more: set<nat>, i: nat)
    requires i < |names| && (forall d :: d in drop ==> d > i) && AddsPosition(drop, i, more)
    ensures Deleted(Without(names, drop), i, Without(names, more))
    decreases |names|
  {
    if i == |names| - 1 {
      WithoutDeleteLast(names, drop, more, i);
    } else {
      WithoutDeleteAdds(names[..|names| - 1], drop, more, i);
      WithoutDeleteInside(names, drop, more, i);
    }
  }

  /** The same, with the position added to the removed set. */
  lemma WithoutDelete(names: seq<string>, drop: set<nat>, i: nat)
    requires i < |names| && forall d :: d in drop ==> d > i
    ensures Deleted(Without(names, drop), i, Without(names, drop + {i}))
  {
    WithoutDeleteAdds(names, drop, drop + {i}, i);
  }

  /** The deletion loop of `remove_selected`: `del names[index]` for each selected position,
      the last first. */
  method DeleteDescending(names: seq<string>, selected: seq<nat>) returns (r: seq<string>)
    requires Selection(selected, |names|)
    ensures r == Without(names, Positions(selected))
    ensures |r| == |names| - |selected|
  {
    r := names;
    var j := |selected|;
    assert Without(names, {}) == names by {
      WithoutPrefix(names, {}, |names|);
    }
    assert Positions(selected[j..]) == {};
    while j > 0
      invariant 0 <= j <= |selected|
      invariant r == Without(names, Positions(selected[j..]))
      invariant |r| == |names| - (|selected| - j)
    {
      j := j - 1;
      var index := selected[j];
      WithoutDelete(names, Positions(selected[j + 1..]), index);
      assert Positions(selected[j..]) == Positions(selected[j + 1..]) + {index} by {
        assert selected[j..] == [index] + selected[j + 1..];
      }
      r := r[..index] + r[index + 1..];
    }
  }

  /** Removing keeps a clean list clean. */
  lemma WithoutClean(names: seq<string>, drop: set<nat>)
    requires AllClean(names)
    ensures AllClean(Without(names, drop))
  {
    WithoutSpec(names, drop);
  }

  /** What `remove_selected` saves is what the dialog loads back the next time it opens,
      when the file was written. */
  lemma RemovedStayRemoved(d: Disk, source: string, names: seq<string>, selected: seq<nat>)
    requires FileSystem.Valid(d) && source != "" && AllClean(names)
    requires SaveIgnoreList(d, source, Without(names, Positions(selected))).Ok?
    requires SaveIgnoreList(d, source, Without(names, Positions(selected))).value.logged.None?
    ensures var d2 := SaveIgnoreList(d, source, Without(names, Positions(selected))).value.disk;
      LoadIgnoreList(d2, source) == Ok(IgnoreLoad(d2, Without(names, Positions(selected)), None))
  {
    WithoutClean(names, Positions(selected));
    SaveThenLoad(d, source, Without(names, Positions(selected)));
  }

  // ---------------------------------------------------------------------------
  // the dialog

  class IgnoreListDialog {
    /** The file system the dialog reads and writes. */
    var disk: Disk
    const sourceFolder: string
    /** The list as the dialog holds it, and the lines of its list box. */
    var ignoreList: seq<string>
    var shown: seq<string>

    /** The disk is well formed and the list holds clean names only. */
    ghost predicate Valid()
      reads this
    {
      FileSystem.Valid(disk) && AllClean(ignoreList)
    }

    /** `__init__` and `load_items`: the list loaded for the source folder and shown. A
        failure to load is raised by the program and no dialog is made. */
    constructor (d: Disk, source: string)
      requires FileSystem.Valid(d) && LoadIgnoreList(d, source).Ok?
      ensures Valid()
      ensures sourceFolder == source
      ensures disk == LoadIgnoreList(d, source).value.disk
      ensures ignoreList == LoadIgnoreList(d, source).value.names && shown == ignoreList
    {
      var load := LoadIgnoreList(d, source).value;
      disk := load.disk;
      sourceFolder := source;
      ignoreList := load.names;
      shown := load.names;
    }

    /** `remove_selected()`, with `selected` the positions the list box reports. With none
        selected nothing happens. Otherwise the selected entries are deleted, the last
        first, the list is saved (a failure to make its folder is raised before the list
        box is refilled) and shown again. */
    method RemoveSelected(selected: seq<nat>) returns (raised: Option<OsError>)
      requires Valid() && Selection(selected, |ignoreList|)
      modifies this`disk, this`ignoreList, this`shown
      ensures Valid()
      ensures selected == [] ==> && raised.None? && disk == old(disk)
                                 && ignoreList == old(ignoreList) && shown == old(shown)
      ensures selected != [] ==>
        && ignoreList == Without(old(ignoreList), Positions(selected))
        && |ignoreList| == |old(ignoreList)| - |selected|
        && var save := SaveIgnoreList(old(disk), sourceFolder, ignoreList);
           && (save.Err? ==> raised == Some(save.error) && disk == old(disk) && shown == old(shown))
           && (save.Ok? ==> raised.None? && disk == save.value.disk && shown == ignoreList)
    {
      if selected == [] {
        return None;
      }
      var list := ignoreList;
      ignoreList := DeleteDescending(list, selected);
      WithoutClean(list, Positions(selected));
      var save := SaveIgnoreList(disk, sourceFolder, ignoreList);
      if save.Err? {
        return Some(save.error);
      }
      disk := save.value.disk;
      shown := ignoreList;
      raised := None;
    }
  }
}
