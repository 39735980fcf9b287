/** The icon grid of a folder tab (`FolderTabWindow.Refresh` and
    `GenerateButton`): the child folders come first, then the child files
    grouped by extension (`GroupBy(Path.GetExtension)`), with `.meta` entries
    dropped from both listings. Each child whose asset loads gets a button,
    numbered from 0 in the element list that keyboard navigation indexes. */
module FolderGrid {

  import opened Wrappers
  import opened Paths
  import Breadcrumbs

  datatype Entry = Folder(path: string) | File(path: string)

  /** A grid button: the child it shows and its index in the element list. */
  datatype Button = Button(entry: Entry, index: nat)

  /** The outcome of a refresh: no folder asset (the list is only cleared),
      a path that is no longer a folder (the window closes), or the header
      and grid that are shown. */
  datatype View = Cleared | Closed | Shown(crumbs: seq<Breadcrumbs.Breadcrumb>, elements: seq<Button>)

  predicate IsMeta(path: string) {
    EndsWith(path, ".meta")
  }

  /** `Where(x => !x.EndsWith(".meta"))`. */
  function WithoutMeta(paths: seq<string>): (r: seq<string>)
    ensures |r| <= |paths|
    ensures forall x :: x in r <==> x in paths && !IsMeta(x)
  {
    if |paths| == 0 then []
    else if IsMeta(paths[0]) then WithoutMeta(paths[1..])
    else [paths[0]] + WithoutMeta(paths[1..])
  }

  /** Filtering a concatenation filters each part and keeps them in order,
      so the filter keeps the listing order of the paths it keeps. */
  lemma {:induction false} WithoutMetaAppend(a: seq<string>, b: seq<string>)
    ensures WithoutMeta(a + b) == WithoutMeta(a) + WithoutMeta(b)
    decreases |a|
  {
    if |a| == 0 {
      assert a + b == b;
    } else {
      assert (a + b)[0] == a[0];
      assert (a + b)[1..] == a[1..] + b;
      WithoutMetaAppend(a[1..], b);
    }
  }

  /** A single path is kept exactly when it does not end in `.meta`. */
  lemma WithoutMetaSingle(x: string)
    ensures WithoutMeta([x]) == (if IsMeta(x) then [] else [x])
  {
    assert [x][1..] == [];
  }

  /** The elements whose key is `k`, in order. */
  function WithKey<T, K(==)>(xs: seq<T>, key: T -> K, k: K): (r: seq<T>)
    ensures |r| <= |xs|
    ensures forall i :: 0 <= i < |r| ==> key(r[i]) == k
  {
    if |xs| == 0 then []
    else if key(xs[0]) == k then [xs[0]] + WithKey(xs[1..], key, k)
    else WithKey(xs[1..], key, k)
  }

  /** The elements with any other key, in order. */
  function OtherKeys<T, K(==)>(xs: seq<T>, key: T -> K, k: K): (r: seq<T>)
    ensures |r| <= |xs|
    ensures forall i :: 0 <= i < |r| ==> key(r[i]) != k
    ensures |xs| > 0 && key(xs[0]) == k ==> |r| < |xs|
  {
    if |xs| == 0 then []
    else if key(xs[0]) == k then OtherKeys(xs[1..], key, k)
    else [xs[0]] + OtherKeys(xs[1..], key, k)
  }

  /** LINQ `GroupBy(key)` flattened: the group of the first element's key,
      then the grouping of everything else. */
  function GroupBy<T, K(==)>(xs: seq<T>, key: T -> K): (r: seq<T>)
    ensures |r| == |xs|
    decreases |xs|
  {
    if |xs| == 0 then []
    else
      var k := key(xs[0]);
      SplitByKey(xs, key, k);
      assert |WithKey(xs, key, k)| + |OtherKeys(xs, key, k)| == |xs| by {
        assert |multiset(WithKey(xs, key, k)) + multiset(OtherKeys(xs, key, k))| == |multiset(xs)|;
      }
      WithKey(xs, key, k) + GroupBy(OtherKeys(xs, key, k), key)
  }

  /** Index of the first element with key `k`, or `|xs|` if none has it. */
  function FirstIndex<T, K(==)>(xs: seq<T>, key: T -> K, k: K): (r: nat)
    ensures r <= |xs|
    ensures r < |xs| ==> key(xs[r]) == k
    ensures forall i :: 0 <= i < r ==> key(xs[i]) != k
  {
    if |xs| == 0 then 0
    else if key(xs[0]) == k then 0
    else
      var r := FirstIndex(xs[1..], key, k);
      assert forall i :: 1 <= i < r + 1 ==> xs[i] == xs[1..][i - 1];
      1 + r
  }

  /** Elements sharing a key stand next to each other. */
  ghost predicate Contiguous<T, K>(xs: seq<T>, key: T -> K) {
    forall i, j, k :: 0 <= i < j < k < |xs| && key(xs[i]) == key(xs[k]) ==> key(xs[j]) == key(xs[i])
  }

  /** Groups appear in the order in which their key first occurs in `listing`. */
  ghost predicate GroupsInFirstOccurrenceOrder<T, K>(grouped: seq<T>, listing: seq<T>, key: T -> K) {
    forall i, j :: 0 <= i < j < |grouped| && key(grouped[i]) != key(grouped[j]) ==>
      FirstIndex(listing, key, key(grouped[i])) < FirstIndex(listing, key, key(grouped[j]))
  }

  lemma {:induction false} SplitByKey<T, K>(xs: seq<T>, key: T -> K, k: K)
    ensures multiset(WithKey(xs, key, k)) + multiset(OtherKeys(xs, key, k)) == multiset(xs)
    decreases |xs|
  {
    if |xs| > 0 {
      SplitByKey(xs[1..], key, k);
      assert xs == [xs[0]] + xs[1..];
    }
  }

  /** Grouping neither drops nor duplicates an element. */
  lemma {:induction false} GroupingIsPermutation<T, K>(xs: seq<T>, key: T -> K)
    ensures multiset(GroupBy(xs, key)) == multiset(xs)
    decreases |xs|
  {
    if |xs| > 0 {
      var k := key(xs[0]);
      SplitByKey(xs, key, k);
      GroupingIsPermutation(OtherKeys(xs, key, k), key);
    }
  }

  lemma {:induction false} WithKeyAppend<T, K>(a: seq<T>, b: seq<T>, key: T -> K, k: K)
    ensures WithKey(a + b, key, k) == WithKey(a, key, k) + WithKey(b, key, k)
    decreases |a|
  {
    if |a| > 0 {
      assert (a + b)[1..] == a[1..] + b;
      WithKeyAppend(a[1..], b, key, k);
    } else {
      assert a + b == b;
    }
  }

  lemma {:induction false} WithKeyOfGroup<T, K>(xs: seq<T>, key: T -> K, k0: K, k: K)
    ensures WithKey(WithKey(xs, key, k0), key, k) == (if k == k0 then WithKey(xs, key, k) else [])
    ensures WithKey(OtherKeys(xs, key, k0), key, k) == (if k == k0 then [] else WithKey(xs, key, k))
    decreases |xs|
  {
    if |xs| > 0 {
      WithKeyOfGroup(xs[1..], key, k0, k);
    }
  }

  /** Within a group the elements keep their listing order. */
  lemma {:induction false} GroupingKeepsListingOrder<T, K>(xs: seq<T>, key: T -> K, k: K)
    ensures WithKey(GroupBy(xs, key), key, k) == WithKey(xs, key, k)
    decreases |xs|
  {
    if |xs| > 0 {
      var k0 := key(xs[0]);
      var rest := OtherKeys(xs, key, k0);
      WithKeyAppend(WithKey(xs, key, k0), GroupBy(rest, key), key, k);
      WithKeyOfGroup(xs, key, k0, k);
      GroupingKeepsListingOrder(rest, key, k);
    }
  }

  /** After the first group, no element has the first group's key. */
  lemma RestAvoidsFirstGroup<T, K>(xs: seq<T>, key: T -> K, k0: K, i: nat)
    requires i < |GroupBy(OtherKeys(xs, key, k0), key)|
    ensures key(GroupBy(OtherKeys(xs, key, k0), key)[i]) != k0
  {
    var others := OtherKeys(xs, key, k0);
    var x := GroupBy(others, key)[i];
    GroupingIsPermutation(others, key);
    assert x in multiset(GroupBy(others, key));
    assert x in multiset(others);
    var m :| 0 <= m < |others| && others[m] == x;
  }

  /** A run of one key followed by a contiguous run that avoids it is contiguous. */
  lemma ContiguousAfterGroup<T, K>(group: seq<T>, rest: seq<T>, key: T -> K, k0: K)
    requires forall i :: 0 <= i < |group| ==> key(group[i]) == k0
    requires forall i :: 0 <= i < |rest| ==> key(rest[i]) != k0
    requires Contiguous(rest, key)
    ensures Contiguous(group + rest, key)
  {
    var r := group + rest;
    assert forall i :: 0 <= i < |group| ==> r[i] == group[i];
    assert forall i :: |group| <= i < |r| ==> r[i] == rest[i - |group|];
    forall i, j, k | |group| <= i < j < k < |r| && key(r[i]) == key(r[k])
      ensures key(r[j]) == key(r[i])
    {
      assert key(rest[i - |group|]) == key(rest[k - |group|]);
    }
  }

  /** Elements sharing a key are contiguous in the grouping. */
  lemma {:induction false} GroupingIsContiguous<T, K>(xs: seq<T>, key: T -> K)
    ensures Contiguous(GroupBy(xs, key), key)
    decreases |xs|
  {
    if |xs| > 0 {
      var k0 := key(xs[0]);
      var others := OtherKeys(xs, key, k0);
      var rest := GroupBy(others, key);
      GroupingIsContiguous(others, key);
      forall i | 0 <= i < |rest| ensures key(rest[i]) != k0 {
        RestAvoidsFirstGroup(xs, key, k0, i);
      }
      ContiguousAfterGroup(WithKey(xs, key, k0), rest, key, k0);
    }
  }

  lemma {:induction false} FirstIndexAfterRemoval<T, K>(xs: seq<T>, key: T -> K, k0: K, a: K, b: K)
    requires a != k0 && b != k0
    requires FirstIndex(OtherKeys(xs, key, k0), key, a) < FirstIndex(OtherKeys(xs, key, k0), key, b)
    ensures FirstIndex(xs, key, a) < FirstIndex(xs, key, b)
    decreases |xs|
  {
    var e := key(xs[0]);
    if e != k0 && e != a {
      FirstIndexAfterRemoval(xs[1..], key, k0, a, b);
    } else if e == k0 {
      FirstIndexAfterRemoval(xs[1..], key, k0, a, b);
    }
  }

  /** The groups appear in order of the first occurrence of their key. */
  lemma {:induction false} GroupsFollowFirstOccurrence<T, K>(xs: seq<T>, key: T -> K)
    ensures GroupsInFirstOccurrenceOrder(GroupBy(xs, key), xs, key)
    decreases |xs|
  {
    if |xs| > 0 {
      var k0 := key(xs[0]);
      var group := WithKey(xs, key, k0);
      var others := OtherKeys(xs, key, k0);
      var rest := GroupBy(others, key);
      GroupingIsPermutation(others, key);
      GroupsFollowFirstOccurrence(others, key);
      var r := group + rest;
      forall i, j | 0 <= i < j < |r| && key(r[i]) != key(r[j])
        ensures FirstIndex(xs, key, key(r[i])) < FirstIndex(xs, key, key(r[j]))
      {
        assert r[j] == rest[j - |group|] by {
          assert j >= |group|;
        }
        assert rest[j - |group|] in multiset(others);
        if i < |group| {
          assert key(r[i]) == k0;
        } else {
          assert r[i] == rest[i - |group|];
          assert rest[i - |group|] in multiset(others);
          FirstIndexAfterRemoval(xs, key, k0, key(r[i]), key(r[j]));
        }
      }
    }
  }

  /** `GroupBy(Path.GetExtension)`. */
  function GroupByExtension(paths: seq<string>): seq<string> {
    GroupBy(paths, Extension)
  }

  function AsFolders(paths: seq<string>): (r: seq<Entry>)
    ensures |r| == |paths| && forall k :: 0 <= k < |r| ==> r[k] == Folder(paths[k])
  {
    seq(|paths|, k requires 0 <= k < |paths| => Folder(paths[k]))
  }

  function AsFiles(paths: seq<string>): (r: seq<Entry>)
    ensures |r| == |paths| && forall k :: 0 <= k < |r| ==> r[k] == File(paths[k])
  {
    seq(|paths|, k requires 0 <= k < |paths| => File(paths[k]))
  }

  function PathsOf(entries: seq<Entry>): (r: seq<string>)
    ensures |r| == |entries| && forall k :: 0 <= k < |r| ==> r[k] == entries[k].path
  {
    seq(|entries|, k requires 0 <= k < |entries| => entries[k].path)
  }

  /** The grid order for a folder's directory and file listings. */
  function GridOrder(directories: seq<string>, files: seq<string>): (r: seq<Entry>)
    ensures |r| == |WithoutMeta(directories)| + |WithoutMeta(files)|
    ensures forall k :: 0 <= k < |r| ==> (r[k].Folder? <==> k < |WithoutMeta(directories)|)
  {
    AsFolders(WithoutMeta(directories)) + AsFiles(GroupByExtension(WithoutMeta(files)))
  }

  /** The grid shows the folders, then the grouped files. */
  lemma GridOrderParts(directories: seq<string>, files: seq<string>)
    ensures var r := GridOrder(directories, files);
      var n := |WithoutMeta(directories)|;
      && n <= |r|
      && PathsOf(r[..n]) == WithoutMeta(directories)
      && PathsOf(r[n..]) == GroupByExtension(WithoutMeta(files))
      && (forall k :: 0 <= k < n ==> r[k].Folder?)
      && (forall k :: n <= k < |r| ==> r[k].File?)
  {
    var r := GridOrder(directories, files);
    var n := |WithoutMeta(directories)|;
    assert r[..n] == AsFolders(WithoutMeta(directories));
    assert r[n..] == AsFiles(GroupByExtension(WithoutMeta(files)));
  }

  /** No entry of the grid ends in `.meta`. */
  lemma GridOrderHasNoMeta(directories: seq<string>, files: seq<string>)
    ensures var r := GridOrder(directories, files);
      forall k :: 0 <= k < |r| ==> !IsMeta(r[k].path)
  {
    var dirs := WithoutMeta(directories);
    var fs := WithoutMeta(files);
    var grouped := GroupByExtension(fs);
    var r := GridOrder(directories, files);
    var n := |dirs|;
    GridOrderParts(directories, files);
    GroupingIsPermutation(fs, Extension);
    forall k | 0 <= k < |r| ensures !IsMeta(r[k].path) {
      if k < n {
        assert r[k].path == PathsOf(r[..n])[k];
        assert dirs[k] in dirs;
      } else {
        assert r[k].path == PathsOf(r[n..])[k - n];
        assert grouped[k - n] in multiset(fs);
      }
    }
  }

  /** Grid order: no `.meta` entry; every folder before every file; the
      folders in listing order; the files a permutation of the listed ones,
      contiguous per extension, groups in first-occurrence order and each
      group in listing order. */
  lemma GridOrderSpec(directories: seq<string>, files: seq<string>)
    ensures var r := GridOrder(directories, files);
      var n := |WithoutMeta(directories)|;
      var filePaths := PathsOf(r[n..]);
      && (forall k :: 0 <= k < |r| ==> !IsMeta(r[k].path))
      && (forall i, j :: 0 <= i < j < |r| && r[j].Folder? ==> r[i].Folder?)
      && PathsOf(r[..n]) == WithoutMeta(directories)
      && (forall k :: 0 <= k < n ==> r[k].Folder?)
      && (forall k :: n <= k < |r| ==> r[k].File?)
      && multiset(filePaths) == multiset(WithoutMeta(files))
      && Contiguous(filePaths, Extension)
      && GroupsInFirstOccurrenceOrder(filePaths, WithoutMeta(files), Extension)
      && (forall ext :: WithKey(filePaths, Extension, ext) == WithKey(WithoutMeta(files), Extension, ext))
  {
    var fs := WithoutMeta(files);
    GridOrderParts(directories, files);
    GridOrderHasNoMeta(directories, files);
    GroupingIsPermutation(fs, Extension);
    GroupingIsContiguous(fs, Extension);
    GroupsFollowFirstOccurrence(fs, Extension);
    forall ext ensures WithKey(GroupByExtension(fs), Extension, ext) == WithKey(fs, Extension, ext) {
      GroupingKeepsListingOrder(fs, Extension, ext);
    }
  }

  /** The children `GenerateButton` keeps: those whose asset loads. */
  function Loadable(order: seq<Entry>, loads: set<string>): (r: seq<Entry>)
    ensures |r| <= |order|
    ensures forall e :: e in r <==> e in order && e.path in loads
  {
    if |order| == 0 then []
    else if order[0].path in loads then [order[0]] + Loadable(order[1..], loads)
    else Loadable(order[1..], loads)
  }

  function EntriesOf(buttons: seq<Button>): (r: seq<Entry>)
    ensures |r| == |buttons| && forall k :: 0 <= k < |r| ==> r[k] == buttons[k].entry
  {
    seq(|buttons|, k requires 0 <= k < |buttons| => buttons[k].entry)
  }

  lemma {:induction false} LoadableAppend(order: seq<Entry>, k: nat, loads: set<string>)
    requires k < |order|
    ensures Loadable(order[..k + 1], loads) ==
      Loadable(order[..k], loads) + (if order[k].path in loads then [order[k]] else [])
    decreases k
  {
    if k > 0 {
      assert order[..k + 1][1..] == order[1..][..k];
      assert order[..k][1..] == order[1..][..k - 1];
      LoadableAppend(order[1..], k - 1, loads);
    }
  }

  /** The buttons after `GenerateButton` ran on the child `e`. */
  function AddButton(elements: seq<Button>, e: Entry, loads: set<string>): seq<Button> {
    if e.path in loads then elements + [Button(e, |elements|)] else elements
  }

  /** One `GenerateButton` call extends the buttons for `order[..i]` to those
      for `order[..i + 1]`, keeping every index equal to its position. */
  lemma AddButtonStep(order: seq<Entry>, i: nat, loads: set<string>, elements: seq<Button>)
    requires i < |order|
    requires EntriesOf(elements) == Loadable(order[..i], loads)
    requires forall k :: 0 <= k < |elements| ==> elements[k].index == k
    ensures EntriesOf(AddButton(elements, order[i], loads)) == Loadable(order[..i + 1], loads)
    ensures var next := AddButton(elements, order[i], loads);
      forall k :: 0 <= k < |next| ==> next[k].index == k
  {
    LoadableAppend(order, i, loads);
    if order[i].path in loads {
      var b := Button(order[i], |elements|);
      assert EntriesOf(elements + [b]) == EntriesOf(elements) + [b.entry];
    }
  }

  /** The `GenerateButton` loop: each child whose asset loads is appended to
      the element list, its index being the list's length at that moment. */
  method GenerateButtons(order: seq<Entry>, loads: set<string>) returns (elements: seq<Button>)
    ensures EntriesOf(elements) == Loadable(order, loads)
    ensures forall k :: 0 <= k < |elements| ==> elements[k].index == k
  {
    elements := [];
    var i := 0;
    while i < |order|
      invariant 0 <= i <= |order|
      invariant EntriesOf(elements) == Loadable(order[..i], loads)
      invariant forall k :: 0 <= k < |elements| ==> elements[k].index == k
    {
      AddButtonStep(order, i, loads, elements);
      elements := AddButton(elements, order[i], loads);
      i := i + 1;
    }
    assert order[..i] == order;
  }

  /** `Refresh`: `folderPath` is the asset path of the window's folder asset
      (None when the asset is gone), `validFolders` the paths the asset
      database accepts as folders, `directories` and `files` the folder's
      listings, `loads` the paths whose main asset loads. */
  method Refresh(folderPath: Option<string>, validFolders: set<string>,
                 directories: seq<string>, files: seq<string>, loads: set<string>)
    returns (view: View)
    ensures folderPath.None? <==> view.Cleared?
    ensures view.Closed? <==> folderPath.Some? && (folderPath.value == "" || folderPath.value !in validFolders)
    ensures view.Shown? ==> view.crumbs == Breadcrumbs.Crumbs(folderPath.value)
    ensures view.Shown? ==> EntriesOf(view.elements) == Loadable(GridOrder(directories, files), loads)
    ensures view.Shown? ==> forall k :: 0 <= k < |view.elements| ==> view.elements[k].index == k
  {
    if folderPath.None? {
      return Cleared;
    }
    var path := folderPath.value;
    if path == "" || path !in validFolders {
      return Closed;
    }
    var elements := GenerateButtons(GridOrder(directories, files), loads);
    view := Shown(Breadcrumbs.Crumbs(path), elements);
  }
}
