/** Dropping objects onto a folder tab's grid (the `DragPerformEvent`
    handler registered in `FolderTabWindow.Refresh`): project assets are
    moved into the folder, scene objects connected to a prefab are saved as
    a variant numbered one above the largest suffix the variant search
    reports, other scene objects are saved as "<name>.prefab", and anything
    else is ignored. Every object is handled against the project as the
    objects before it left it: its classification, its asset path and the
    variant search all read the current state. */
module GridDrop {

  import opened Wrappers
  import opened Paths
  import opened Numbers

  /** A dragged object: its identity, its name (`gameObject.name`) and
      whether it is a `GameObject`. */
  datatype Dragged = Dragged(id: nat, name: string, isGameObject: bool)

  /** What the handler reads of the project and changes in it: the asset
      paths the database knows (`AssetPathToGUID` is not empty for them), the
      objects that are assets (`AssetDatabase.Contains`) with their paths,
      and the game objects whose prefab asset type is not `NotAPrefab`. */
  datatype Project = Project(files: set<string>, assets: map<nat, string>, connected: set<nat>)

  /** `FindAssets($"t:GameObject {variantName}", new[] { folderPath })`
      followed by `GUIDToAssetPath`: the paths the search reports for a
      folder and a variant name, given the files the database holds. Which
      files match is the editor's business. */
  type Search = (string, string, set<string>) -> seq<string>

  /** What the handler does for one dragged object. */
  datatype Effect =
    | MoveAsset(obj: nat, from: string, to: string)
      /** `SaveAsPrefabAssetAndConnect`: the object becomes an instance of the new prefab. */
    | SavePrefab(obj: nat, path: string)
      /** The variant path is taken: a warning is logged and nothing is saved. */
    | AlreadyExists(path: string)
    | Ignored

  /** The effects carried out, and whether the handler reached
      `StopPropagation` (it does not when it returns early or throws). */
  datatype DropOutcome = DropOutcome(effects: seq<Effect>, stopsEvent: bool)

  /** `$"{gameObject.name} Variant"`. */
  function VariantName(objectName: string): string {
    objectName + " Variant"
  }

  /** Every reported name is at least as long as the variant name, so
      `name.Substring(variantName.Length)` does not throw. */
  predicate Readable(names: seq<string>, variantName: string) {
    forall k :: 0 <= k < |names| ==> |variantName| <= |names[k]|
  }

  /** `.Select(path => Path.GetFileNameWithoutExtension(path))`. */
  function FoundNames(paths: seq<string>): (names: seq<string>)
    ensures |names| == |paths|
    ensures forall k :: 0 <= k < |paths| ==> names[k] == FileNameWithoutExtension(paths[k])
  {
    seq(|paths|, k requires 0 <= k < |paths| => FileNameWithoutExtension(paths[k]))
  }

  /** The number a found name contributes: the text after the first
      `|variantName|` characters, trimmed and parsed; a suffix that does not
      parse (an empty one included) counts as 0. */
  function SuffixNumber(name: string, variantName: string): (n: int)
    requires |variantName| <= |name|
    ensures InInt32(n)
    ensures TryParseInt32(Trim(name[|variantName|..])).None? ==> n == 0
    ensures var t := Trim(name[|variantName|..]); IsIntegerText(t) && InInt32(TextValue(t)) ==> n == TextValue(t)
  {
    TryParseInt32(Trim(name[|variantName|..])).GetOr(0)
  }

  function SuffixNumbers(names: seq<string>, variantName: string): (ns: seq<int>)
    requires Readable(names, variantName)
    ensures |ns| == |names|
    ensures forall k :: 0 <= k < |ns| ==> ns[k] == SuffixNumber(names[k], variantName)
  {
    seq(|names|, k requires 0 <= k < |names| => SuffixNumber(names[k], variantName))
  }

  /** `OrderBy(num => num).Last()`: the largest number. */
  function Max(ns: seq<int>): (m: int)
    requires |ns| > 0
    ensures m in ns
    ensures forall k :: 0 <= k < |ns| ==> ns[k] <= m
  {
    if |ns| == 1 then ns[0]
    else
      var m := Max(ns[1..]);
      assert forall k :: 1 <= k < |ns| ==> ns[k] == ns[1..][k - 1];
      if ns[0] >= m then ns[0] else m
  }

  /** `existingVariants.Last() + 1`, in unchecked `int` arithmetic: one
      above the largest suffix number, except that `int.MaxValue` wraps to
      `int.MinValue`. */
  function NextNumber(names: seq<string>, variantName: string): (n: int)
    requires |names| > 0 && Readable(names, variantName)
    ensures InInt32(n)
    ensures Max(SuffixNumbers(names, variantName)) < Int32Max ==> n == Max(SuffixNumbers(names, variantName)) + 1
    ensures Max(SuffixNumbers(names, variantName)) == Int32Max ==> n == Int32Min
  {
    Wrap32(Max(SuffixNumbers(names, variantName)) + 1)
  }

  /** The file name of the new variant, without its extension: the variant
      name, followed by the next number when the search found anything. */
  function VariantFileName(objectName: string, names: seq<string>): (f: string)
    requires Readable(names, VariantName(objectName))
    ensures |names| == 0 <==> f == VariantName(objectName)
    ensures IsPrefix(VariantName(objectName), f)
    ensures |names| > 0 ==>
      f[|VariantName(objectName)|..] == " " + FormatInt(NextNumber(names, VariantName(objectName)))
  {
    var vn := VariantName(objectName);
    if |names| > 0 then
      var digits := FormatInt(NextNumber(names, vn));
      PrefixOfJoined(vn, " ", digits);
      vn + " " + digits
    else vn
  }

  lemma PrefixOfJoined(a: string, b: string, c: string)
    ensures IsPrefix(a, a + b + c) && (a + b + c)[|a|..] == b + c
  {
    assert (a + b + c)[..|a|] == a;
  }

  function VariantPath(folderPath: string, objectName: string, names: seq<string>): string
    requires Readable(names, VariantName(objectName))
  {
    folderPath + "/" + VariantFileName(objectName, names) + ".prefab"
  }

  lemma NumberedSuffix(variantName: string, n: int)
    requires InInt32(n)
    ensures IsPrefix(variantName, variantName + " " + FormatInt(n))
    ensures SuffixNumber(variantName + " " + FormatInt(n), variantName) == n
  {
    var digits := FormatInt(n);
    var name := variantName + " " + digits;
    assert name[..|variantName|] == variantName;
    assert name[|variantName|..] == " " + digits;
    assert IsWhiteSpace(" "[0]);
    TrimmedAlready(" ", digits);
    ParseFormat(n);
  }

  /** The new variant's suffix reads back as the number it was given (0 for
      the unnumbered first variant). */
  lemma VariantNameReadsBack(objectName: string, names: seq<string>)
    requires Readable(names, VariantName(objectName))
    ensures |VariantName(objectName)| <= |VariantFileName(objectName, names)|
    ensures SuffixNumber(VariantFileName(objectName, names), VariantName(objectName)) ==
      (if |names| == 0 then 0 else NextNumber(names, VariantName(objectName)))
  {
    var vn := VariantName(objectName);
    if |names| == 0 {
      assert vn[|vn|..] == "";
      assert Trim("") == "";
    } else {
      NumberedSuffix(vn, NextNumber(names, vn));
    }
  }

  /** A name whose suffix number exceeds every found one is not among them. */
  lemma LargerNumberIsNew(names: seq<string>, variantName: string, name: string)
    requires Readable(names, variantName) && |variantName| <= |name|
    requires forall k :: 0 <= k < |names| ==> SuffixNumber(names[k], variantName) < SuffixNumber(name, variantName)
    ensures name !in names
  {
    forall k | 0 <= k < |names| ensures names[k] != name {
      assert SuffixNumber(names[k], variantName) != SuffixNumber(name, variantName);
    }
  }

  /** Unless the largest suffix is `int.MaxValue` (where the addition wraps
      to `int.MinValue`), the new number is above every found one, so the
      new name is none of the found names. */
  lemma NextVariantIsFresh(objectName: string, names: seq<string>)
    requires Readable(names, VariantName(objectName))
    requires |names| > 0 ==> Max(SuffixNumbers(names, VariantName(objectName))) < Int32Max
    ensures |names| > 0 ==> forall k :: 0 <= k < |names| ==>
      SuffixNumber(names[k], VariantName(objectName)) < NextNumber(names, VariantName(objectName))
    ensures VariantFileName(objectName, names) !in names
  {
    if |names| > 0 {
      var vn := VariantName(objectName);
      var ns := SuffixNumbers(names, vn);
      var n := NextNumber(names, vn);
      forall k | 0 <= k < |names| ensures SuffixNumber(names[k], vn) < n {
        assert ns[k] <= Max(ns);
      }
      VariantNameReadsBack(objectName, names);
      LargerNumberIsNew(names, vn, VariantFileName(objectName, names));
    }
  }

  /** With a variant numbered `int.MaxValue` present, the next number wraps
      to `int.MinValue`. */
  lemma NextNumberWrapsAtMax(objectName: string, n: int)
    requires n == Int32Max
    ensures var vn := VariantName(objectName);
      var names := [vn + " " + FormatInt(n)];
      Readable(names, vn) && NextNumber(names, vn) == Int32Min
  {
    var vn := VariantName(objectName);
    var names := [vn + " " + FormatInt(n)];
    NumberedSuffix(vn, n);
    var ns := SuffixNumbers(names, vn);
    assert |ns| == 1 && ns[0] == n;
    assert Max(ns) == n;
  }

  lemma MaxOfLarger(ns: seq<int>, x: int)
    requires |ns| > 0 && x > Max(ns)
    ensures Max(ns + [x]) == x
  {
    var ns' := ns + [x];
    assert ns'[|ns|] == x;
    forall k | 0 <= k < |ns'| ensures ns'[k] <= x {
      if k < |ns| {
        assert ns'[k] == ns[k];
      }
    }
  }

  /** The largest number depends only on which numbers occur. */
  lemma MaxOfSameElements(ns: seq<int>, ms: seq<int>)
    requires |ns| > 0 && |ms| > 0
    requires forall x :: x in ns <==> x in ms
    ensures Max(ns) == Max(ms)
  {
    var a := Max(ns);
    var b := Max(ms);
    var i :| 0 <= i < |ms| && ms[i] == a;
    var j :| 0 <= j < |ns| && ns[j] == b;
    assert a <= b && b <= a;
  }

  /** The search result's order and repetitions do not matter: two lists of
      the same names give the same next number. */
  lemma SameNamesSameNext(a: seq<string>, b: seq<string>, variantName: string)
    requires |a| > 0 && Readable(a, variantName)
    requires forall x :: x in a <==> x in b
    ensures |b| > 0 && Readable(b, variantName)
    ensures NextNumber(a, variantName) == NextNumber(b, variantName)
  {
    assert a[0] in a;
    forall k | 0 <= k < |b| ensures |variantName| <= |b[k]| {
      assert b[k] in b;
      var i := IndexOf(a, b[k]);
    }
    var na := SuffixNumbers(a, variantName);
    var nb := SuffixNumbers(b, variantName);
    forall x | x in na ensures x in nb {
      var i := IndexOf(na, x);
      assert a[i] in a;
      var j := IndexOf(b, a[i]);
      assert nb[j] == x;
    }
    forall x | x in nb ensures x in na {
      var j := IndexOf(nb, x);
      assert b[j] in b;
      var i := IndexOf(a, b[j]);
      assert na[i] == x;
    }
    MaxOfSameElements(na, nb);
  }

  /** A position holding `x`. */
  lemma IndexOf<T>(a: seq<T>, x: T) returns (i: nat)
    requires x in a
    ensures i < |a| && a[i] == x
  {
    i :| 0 <= i < |a| && a[i] == x;
  }

  lemma SuffixNumbersAppend(names: seq<string>, variantName: string, name: string)
    requires Readable(names, variantName) && |variantName| <= |name|
    ensures Readable(names + [name], variantName)
    ensures SuffixNumbers(names + [name], variantName) ==
      SuffixNumbers(names, variantName) + [SuffixNumber(name, variantName)]
  {
    var names' := names + [name];
    assert forall k :: 0 <= k < |names| ==> names'[k] == names[k];
    assert names'[|names|] == name;
    var a := SuffixNumbers(names', variantName);
    var b := SuffixNumbers(names, variantName) + [SuffixNumber(name, variantName)];
    forall k | 0 <= k < |a| ensures a[k] == b[k] {
      if k < |names| {
        assert a[k] == SuffixNumber(names[k], variantName);
      }
    }
  }

  /** Saving a variant and searching again numbers the next one from it:
      after the unnumbered first variant comes 1, after N comes N + 1. */
  lemma VariantsCountUp(objectName: string, names: seq<string>)
    requires Readable(names, VariantName(objectName))
    requires |names| > 0 ==> Max(SuffixNumbers(names, VariantName(objectName))) < Int32Max - 1
    ensures var vn := VariantName(objectName);
      var names' := names + [VariantFileName(objectName, names)];
      Readable(names', vn) &&
      NextNumber(names', vn) == (if |names| == 0 then 1 else NextNumber(names, vn) + 1)
  {
    var vn := VariantName(objectName);
    var name := VariantFileName(objectName, names);
    var names' := names + [name];
    assert Readable(names', vn) && SuffixNumbers(names', vn) ==
        SuffixNumbers(names, vn) + [if |names| == 0 then 0 else NextNumber(names, vn)] by {
      VariantNameReadsBack(objectName, names);
      SuffixNumbersAppend(names, vn, name);
    }
    var ns' := SuffixNumbers(names', vn);
    if |names| == 0 {
      assert Max(ns') == 0 by {
        assert ns' == [0];
      }
    } else {
      var ns := SuffixNumbers(names, vn);
      var n := NextNumber(names, vn);
      assert Max(ns') == n by {
        assert n == Max(ns) + 1;
        MaxOfLarger(ns, n);
      }
    }
  }

  /** A variant file name holds no separator when the object name holds none. */
  lemma VariantFileNameIsPlain(objectName: string, names: seq<string>)
    requires Readable(names, VariantName(objectName))
    requires HasNoSeparator(objectName)
    ensures HasNoSeparator(VariantFileName(objectName, names))
  {
    var vn := VariantName(objectName);
    SuffixWordIsPlain();
    NoSeparatorConcat(objectName, " Variant");
    if |names| > 0 {
      var digits := FormatInt(NextNumber(names, vn));
      NumberIsPlain(NextNumber(names, vn));
      NoSeparatorConcat(vn, " ");
      NoSeparatorConcat(vn + " ", digits);
      assert VariantFileName(objectName, names) == vn + " " + digits;
    }
  }

  lemma SuffixWordIsPlain()
    ensures HasNoSeparator(" Variant") && HasNoSeparator(" ")
  {
    var w := " Variant";
    forall k | 0 <= k < |w| ensures !IsSeparator(w[k]) {
    }
  }

  /** A printed number holds no separator. */
  lemma NumberIsPlain(n: int)
    ensures HasNoSeparator(FormatInt(n))
  {
    FormatIntChars(n);
  }

  /** The search reports a saved variant under the file name it was saved as. */
  lemma VariantPathReadsBack(folderPath: string, objectName: string, names: seq<string>)
    requires Readable(names, VariantName(objectName))
    requires HasNoSeparator(objectName)
    ensures FileNameWithoutExtension(VariantPath(folderPath, objectName, names)) == VariantFileName(objectName, names)
  {
    var f := VariantFileName(objectName, names);
    VariantFileNameIsPlain(objectName, names);
    PrefabExtension(folderPath, f);
  }

  /** `<folder>/<f>.prefab` has the file name `f` without its extension. */
  lemma PrefabExtension(folderPath: string, f: string)
    requires HasNoSeparator(f)
    ensures FileNameWithoutExtension(folderPath + "/" + f + ".prefab") == f
  {
    var ext := ".prefab";
    assert |ext| == 7 && ext[0] == '.';
    assert forall k :: 0 < k < |ext| ==> !IsSeparator(ext[k]) && ext[k] != '.';
    FileNameWithoutExtensionOf(folderPath, f, ext);
  }

  /** A game object in the scene that is an instance of a prefab. */
  predicate ConnectedInstance(d: Dragged, p: Project) {
    d.id !in p.assets && d.isGameObject && d.id in p.connected
  }

  /** The handler's treatment of one dragged object in the project as it
      stands; None when the variant numbering throws because a reported
      name is shorter than the variant name. */
  function DropOne(folderPath: string, d: Dragged, p: Project, find: Search): (r: Option<Effect>)
    ensures d.id in p.assets <==> r.Some? && r.value.MoveAsset?
    ensures d.id in p.assets ==> r == Some(MoveAsset(d.id, p.assets[d.id], folderPath + "/" + FileName(p.assets[d.id])))
    ensures r == Some(Ignored) <==> d.id !in p.assets && !d.isGameObject
    ensures d.id !in p.assets && d.isGameObject && d.id !in p.connected ==>
      r == Some(SavePrefab(d.id, folderPath + "/" + d.name + ".prefab"))
    ensures ConnectedInstance(d, p) ==>
      var vn := VariantName(d.name);
      var names := FoundNames(find(folderPath, vn, p.files));
      (r.None? <==> !Readable(names, vn)) &&
      (r.Some? ==> (r.value.SavePrefab? && r.value.obj == d.id) || r.value.AlreadyExists?) &&
      (r.Some? ==> r.value.path == VariantPath(folderPath, d.name, names)) &&
      (r.Some? ==> (r.value.AlreadyExists? <==> r.value.path in p.files))
  {
    if d.id in p.assets then
      var from := p.assets[d.id];
      Some(MoveAsset(d.id, from, folderPath + "/" + FileName(from)))
    else if !d.isGameObject then Some(Ignored)
    else if d.id in p.connected then
      var vn := VariantName(d.name);
      var names := FoundNames(find(folderPath, vn, p.files));
      if !Readable(names, vn) then None
      else
        var path := VariantPath(folderPath, d.name, names);
        if path in p.files then Some(AlreadyExists(path)) else Some(SavePrefab(d.id, path))
    else Some(SavePrefab(d.id, folderPath + "/" + d.name + ".prefab"))
  }

  /** The project after an effect: a move frees the old path, adds the new
      one and changes the moved asset's path, and nothing else; a save adds the prefab and connects the object, and
      a warning or an ignored object changes nothing. */
  function Apply(p: Project, e: Effect): (q: Project)
    ensures e.MoveAsset? ==> e.to in q.files && q.assets == p.assets[e.obj := e.to] && q.connected == p.connected
    ensures e.MoveAsset? ==> forall f :: f in p.files && f != e.from ==> f in q.files
    ensures e.MoveAsset? ==> forall f :: f in q.files ==> f in p.files || f == e.to
    ensures e.MoveAsset? && e.from != e.to ==> e.from !in q.files
    ensures e.SavePrefab? ==> q.files == p.files + {e.path} && q.assets == p.assets && q.connected == p.connected + {e.obj}
    ensures e.AlreadyExists? || e.Ignored? ==> q == p
  {
    match e
    case MoveAsset(obj, from, to) => Project(p.files - {from} + {to}, p.assets[obj := to], p.connected)
    case SavePrefab(obj, path) => Project(p.files + {path}, p.assets, p.connected + {obj})
    case _ => p
  }

  /** The project after a run of effects, in order. */
  function ApplyAll(p: Project, effects: seq<Effect>): Project
    decreases |effects|
  {
    if |effects| == 0 then p else ApplyAll(Apply(p, effects[0]), effects[1..])
  }

  /** The `foreach` over the dragged objects, each handled in the project as
      the earlier ones left it; a throw ends the loop and the handler. */
  function DropAll(folderPath: string, refs: seq<Dragged>, p: Project, find: Search): (r: DropOutcome)
    ensures |r.effects| <= |refs|
    ensures r.stopsEvent <==> |r.effects| == |refs|
  {
    if |refs| == 0 then DropOutcome([], true)
    else match DropOne(folderPath, refs[0], p, find)
      case None => DropOutcome([], false)
      case Some(e) =>
        var rest := DropAll(folderPath, refs[1..], Apply(p, e), find);
        DropOutcome([e] + rest.effects, rest.stopsEvent)
  }

  /** The whole handler: with no dragged objects it returns at once without
      stopping the event; otherwise it handles the objects and stops the
      event once all of them are handled. */
  function OnGridDrop(folderPath: string, refs: seq<Dragged>, p: Project, find: Search): (r: DropOutcome)
    ensures |refs| == 0 ==> r == DropOutcome([], false)
    ensures |r.effects| <= |refs|
    ensures r.stopsEvent <==> |refs| > 0 && |r.effects| == |refs|
  {
    if |refs| == 0 then DropOutcome([], false)
    else DropAll(folderPath, refs, p, find)
  }

  /** Each dragged object is handled in the project as the effects before it
      left it, and the handler stops exactly at an object whose handling throws. */
  lemma {:induction false} DropAllSeesEarlierEffects(folderPath: string, refs: seq<Dragged>, p: Project, find: Search, k: nat)
    requires k < |refs| && k <= |DropAll(folderPath, refs, p, find).effects|
    ensures var effects := DropAll(folderPath, refs, p, find).effects;
      k < |effects| ==> DropOne(folderPath, refs[k], ApplyAll(p, effects[..k]), find) == Some(effects[k])
    ensures var effects := DropAll(folderPath, refs, p, find).effects;
      k == |effects| ==> DropOne(folderPath, refs[k], ApplyAll(p, effects), find).None?
    decreases k
  {
    var effects := DropAll(folderPath, refs, p, find).effects;
    if k > 0 {
      var e := DropOne(folderPath, refs[0], p, find).value;
      var tail := refs[1..];
      var rest := DropAll(folderPath, tail, Apply(p, e), find).effects;
      assert effects == [e] + rest;
      DropAllSeesEarlierEffects(folderPath, tail, Apply(p, e), find, k - 1);
      assert tail[k - 1] == refs[k];
      assert effects[..k][1..] == rest[..k - 1];
      assert ApplyAll(p, effects[..k]) == ApplyAll(Apply(p, e), rest[..k - 1]);
      if k == |effects| {
        assert effects[1..] == rest;
      }
    } else {
      assert effects[..0] == [];
    }
  }

  /** Every handled object is treated by its kind in the project as the
      earlier effects left it: an asset moves to `<folder>/<file name>`, a
      prefab instance saves or warns at its variant path, any other game
      object saves as `<folder>/<name>.prefab`, anything else is ignored;
      and a handler that stops early stops at a prefab instance whose
      search reported a name shorter than the variant name. */
  lemma DropAllClassifies(folderPath: string, refs: seq<Dragged>, p: Project, find: Search)
    ensures var effects := DropAll(folderPath, refs, p, find).effects;
      forall k :: 0 <= k < |effects| ==> var q := ApplyAll(p, effects[..k]);
        && (refs[k].id in q.assets ==>
              effects[k] == MoveAsset(refs[k].id, q.assets[refs[k].id], folderPath + "/" + FileName(q.assets[refs[k].id])))
        && (effects[k] == Ignored <==> refs[k].id !in q.assets && !refs[k].isGameObject)
        && (refs[k].id !in q.assets && refs[k].isGameObject && refs[k].id !in q.connected ==>
              effects[k] == SavePrefab(refs[k].id, folderPath + "/" + refs[k].name + ".prefab"))
        && (ConnectedInstance(refs[k], q) ==> effects[k].SavePrefab? || effects[k].AlreadyExists?)
    ensures var effects := DropAll(folderPath, refs, p, find).effects;
      |effects| < |refs| ==> var q := ApplyAll(p, effects);
        ConnectedInstance(refs[|effects|], q) &&
        !Readable(FoundNames(find(folderPath, VariantName(refs[|effects|].name), q.files)), VariantName(refs[|effects|].name))
  {
    var effects := DropAll(folderPath, refs, p, find).effects;
    forall k | 0 <= k < |effects| {
      DropAllSeesEarlierEffects(folderPath, refs, p, find, k);
    }
    if |effects| < |refs| {
      DropAllSeesEarlierEffects(folderPath, refs, p, find, |effects|);
    }
  }

  /** A variant is saved only at a path the database did not hold when its
      object came up, after the earlier moves and saves; a taken path only
      yields the warning. */
  lemma NoVariantSavedOverExisting(folderPath: string, refs: seq<Dragged>, p: Project, find: Search)
    ensures var effects := DropAll(folderPath, refs, p, find).effects;
      forall k :: 0 <= k < |effects| && ConnectedInstance(refs[k], ApplyAll(p, effects[..k])) ==>
        var q := ApplyAll(p, effects[..k]);
        var vn := VariantName(refs[k].name);
        var names := FoundNames(find(folderPath, vn, q.files));
        Readable(names, vn) &&
        var path := VariantPath(folderPath, refs[k].name, names);
        effects[k] == (if path in q.files then AlreadyExists(path) else SavePrefab(refs[k].id, path))
  {
    var effects := DropAll(folderPath, refs, p, find).effects;
    forall k | 0 <= k < |effects| && ConnectedInstance(refs[k], ApplyAll(p, effects[..k])) {
      DropAllSeesEarlierEffects(folderPath, refs, p, find, k);
    }
  }

  /** The names of a search that reports one path more are the earlier
      names and that path's file name. */
  lemma FoundNamesOfLargerSearch(before: seq<string>, after: seq<string>, extra: string)
    requires forall x :: x in after <==> x in before || x == extra
    ensures forall y :: y in FoundNames(after) <==> y in FoundNames(before) + [FileNameWithoutExtension(extra)]
  {
    var f := FileNameWithoutExtension;
    assert FoundNames(after) == MapNames(f, after);
    assert FoundNames(before) == MapNames(f, before);
    forall y ensures y in MapNames(f, after) <==> y in MapNames(f, before) + [f(extra)] {
      if y in MapNames(f, after) {
        MappedFromBefore(f, before, after, extra, y);
      }
      if y in MapNames(f, before) + [f(extra)] {
        MappedInAfter(f, before, after, extra, y);
      }
    }
  }

  /** `f` applied to every element of `a`; stated for an arbitrary `f` so
      that the proofs below never look inside it. */
  function MapNames(f: string -> string, a: seq<string>): (r: seq<string>)
    ensures |r| == |a| && forall k :: 0 <= k < |a| ==> r[k] == f(a[k])
  {
    seq(|a|, k requires 0 <= k < |a| => f(a[k]))
  }

  lemma MappedFromBefore(f: string -> string, before: seq<string>, after: seq<string>, extra: string, y: string)
    requires forall x :: x in after ==> x in before || x == extra
    requires y in MapNames(f, after)
    ensures y in MapNames(f, before) + [f(extra)]
  {
    var nb := MapNames(f, before) + [f(extra)];
    var i := IndexOf(MapNames(f, after), y);
    assert after[i] in after;
    if after[i] == extra {
      assert nb[|before|] == y;
    } else {
      var j := IndexOf(before, after[i]);
      assert nb[j] == y;
    }
  }

  lemma MappedInAfter(f: string -> string, before: seq<string>, after: seq<string>, extra: string, y: string)
    requires forall x :: x in before || x == extra ==> x in after
    requires y in MapNames(f, before) + [f(extra)]
    ensures y in MapNames(f, after)
  {
    var nb := MapNames(f, before) + [f(extra)];
    var j := IndexOf(nb, y);
    var i: nat;
    if j < |before| {
      assert before[j] in before;
      i := IndexOf(after, before[j]);
    } else {
      i := IndexOf(after, extra);
    }
    assert MapNames(f, after)[i] == y;
  }

  /** After a save at `path`, the variant search reports what it reported
      before, and `path`. */
  ghost predicate SearchReportsSave(find: Search, folderPath: string, variantName: string, files: set<string>, path: string) {
    forall x :: x in find(folderPath, variantName, files + {path}) <==>
      x in find(folderPath, variantName, files) || x == path
  }

  /** Once the search reports a saved variant, the next variant is numbered
      from it: 1 after the unnumbered first variant, N + 1 after N. */
  lemma NextVariantAfterSave(folderPath: string, objectName: string, files: set<string>, find: Search)
    requires HasNoSeparator(objectName)
    requires Readable(FoundNames(find(folderPath, VariantName(objectName), files)), VariantName(objectName))
    requires var names := FoundNames(find(folderPath, VariantName(objectName), files));
      |names| > 0 ==> Max(SuffixNumbers(names, VariantName(objectName))) < Int32Max - 1
    requires SearchReportsSave(find, folderPath, VariantName(objectName), files,
      VariantPath(folderPath, objectName, FoundNames(find(folderPath, VariantName(objectName), files))))
    ensures var vn := VariantName(objectName);
      var names := FoundNames(find(folderPath, vn, files));
      var names' := FoundNames(find(folderPath, vn, files + {VariantPath(folderPath, objectName, names)}));
      && |names'| > 0 && Readable(names', vn)
      && NextNumber(names', vn) == (if |names| == 0 then 1 else NextNumber(names, vn) + 1)
  {
    var vn := VariantName(objectName);
    var names := FoundNames(find(folderPath, vn, files));
    var f := VariantFileName(objectName, names);
    var path := VariantPath(folderPath, objectName, names);
    var names' := FoundNames(find(folderPath, vn, files + {path}));
    assert forall y :: y in names' <==> y in names + [f] by {
      FoundNamesOfLargerSearch(find(folderPath, vn, files), find(folderPath, vn, files + {path}), path);
      VariantPathReadsBack(folderPath, objectName, names);
    }
    VariantsCountUp(objectName, names);
    assert (names + [f])[|names|] in names + [f];
    SameNamesSameNext(names + [f], names', vn);
  }

  /** Two instances of one prefab dropped together get consecutive
      variants: once the search reports the variant the first one saved,
      the second is numbered from it (1 after the unnumbered first variant,
      N + 1 after N). */
  lemma SecondInstanceNumbersFromFirst(folderPath: string, g1: Dragged, g2: Dragged, p: Project, find: Search)
    requires ConnectedInstance(g1, p) && ConnectedInstance(g2, p) && g1.name == g2.name
    requires HasNoSeparator(g1.name)
    requires Readable(FoundNames(find(folderPath, VariantName(g1.name), p.files)), VariantName(g1.name))
    requires var names := FoundNames(find(folderPath, VariantName(g1.name), p.files));
      |names| > 0 ==> Max(SuffixNumbers(names, VariantName(g1.name))) < Int32Max - 1
    requires var path := VariantPath(folderPath, g1.name, FoundNames(find(folderPath, VariantName(g1.name), p.files)));
      path !in p.files && SearchReportsSave(find, folderPath, VariantName(g1.name), p.files, path)
    ensures var vn := VariantName(g1.name);
      var names := FoundNames(find(folderPath, vn, p.files));
      var r := DropAll(folderPath, [g1, g2], p, find);
      && r.stopsEvent && |r.effects| == 2
      && r.effects[0] == SavePrefab(g1.id, VariantPath(folderPath, g1.name, names))
      && (r.effects[1].SavePrefab? || r.effects[1].AlreadyExists?)
      && r.effects[1].path == folderPath + "/" + (vn + " " +
           FormatInt(if |names| == 0 then 1 else NextNumber(names, vn) + 1)) + ".prefab"
  {
    var vn := VariantName(g1.name);
    var names := FoundNames(find(folderPath, vn, p.files));
    var path1 := VariantPath(folderPath, g1.name, names);
    var e1 := SavePrefab(g1.id, path1);
    assert DropOne(folderPath, g1, p, find) == Some(e1);
    var q := Apply(p, e1);
    assert q.files == p.files + {path1};
    NextVariantAfterSave(folderPath, g1.name, p.files, find);
    var names2 := FoundNames(find(folderPath, vn, q.files));
    assert ConnectedInstance(g2, q) && Readable(names2, vn);
    var e2 := DropOne(folderPath, g2, q, find).value;
    assert e2.path == VariantPath(folderPath, g2.name, names2);
    DropAllOfTwo(folderPath, g1, g2, p, find, e1, e2);
  }

  /** One handled object: its effect comes first, then the rest of the loop
      in the project it leaves. */
  lemma DropAllStep(folderPath: string, refs: seq<Dragged>, p: Project, find: Search, e: Effect)
    ensures |refs| > 0 && DropOne(folderPath, refs[0], p, find) == Some(e) ==>
      var rest := DropAll(folderPath, refs[1..], Apply(p, e), find);
      DropAll(folderPath, refs, p, find) == DropOutcome([e] + rest.effects, rest.stopsEvent)
  {
  }

  /** Two objects, both handled: the loop yields their two effects in turn. */
  lemma DropAllOfTwo(folderPath: string, a: Dragged, b: Dragged, p: Project, find: Search, ea: Effect, eb: Effect)
    ensures DropOne(folderPath, a, p, find) == Some(ea) && DropOne(folderPath, b, Apply(p, ea), find) == Some(eb) ==>
      DropAll(folderPath, [a, b], p, find) == DropOutcome([ea, eb], true)
  {
    var q := Apply(p, ea);
    if DropOne(folderPath, a, p, find) == Some(ea) && DropOne(folderPath, b, q, find) == Some(eb) {
      var tail := [a, b][1..];
      assert tail == [b];
      DropAllStep(folderPath, [a, b], p, find, ea);
      var rest := DropAll(folderPath, [b], q, find);
      assert rest == DropOutcome([eb], true) by {
        DropAllStep(folderPath, [b], q, find, eb);
        assert [b][1..] == [];
      }
    }
  }
}
