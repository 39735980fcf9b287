/** The breadcrumb bar at the top of a folder tab (`FolderTabWindow.Refresh`):
    the folder's asset path is split on `/`, every non-empty segment becomes
    a crumb labelled with that segment, and a `/` separator label follows a
    crumb unless it came from the last segment. Each crumb's actions open the
    path made of the segments up to and including its own. */
module Breadcrumbs {

  import opened Paths

  /** One crumb: its label, the split index it came from, the path its
      Open / Open as Tab / Open as Floating actions load, and whether a
      separator label is added after it. */
  datatype Breadcrumb = Breadcrumb(text: string, segment: nat, target: string, separatorAfter: bool)

  /** The three actions of a crumb (click or submit, and its context menu). */
  datatype CrumbAction = Open | OpenAsTab | OpenAsFloating

  /** The asset command a crumb action issues, on the path it loads. */
  datatype Command = FocusAsset(path: string) | OpenAssetAsTab(path: string) | OpenAssetAsFloating(path: string)

  function NonEmpty(parts: seq<string>): (r: seq<string>)
    ensures |r| <= |parts|
    ensures forall k :: 0 <= k < |r| ==> r[k] != ""
  {
    if |parts| == 0 then []
    else if parts[0] == "" then NonEmpty(parts[1..])
    else [parts[0]] + NonEmpty(parts[1..])
  }

  function Labels(crumbs: seq<Breadcrumb>): (r: seq<string>)
    ensures |r| == |crumbs|
    ensures forall k :: 0 <= k < |r| ==> r[k] == crumbs[k].text
  {
    if |crumbs| == 0 then [] else [crumbs[0].text] + Labels(crumbs[1..])
  }

  function SeparatorCount(crumbs: seq<Breadcrumb>): nat {
    if |crumbs| == 0 then 0
    else (if crumbs[0].separatorAfter then 1 else 0) + SeparatorCount(crumbs[1..])
  }

  /** The loop over split indices `i..` of `parts`. */
  function CrumbsFrom(parts: seq<string>, i: nat): (r: seq<Breadcrumb>)
    requires i <= |parts|
    ensures forall k :: 0 <= k < |r| ==> i <= r[k].segment < |parts|
    ensures forall k :: 0 <= k < |r| ==> r[k].text == parts[r[k].segment] && r[k].text != ""
    decreases |parts| - i
  {
    if i == |parts| then []
    else if parts[i] == "" then CrumbsFrom(parts, i + 1)
    else [Breadcrumb(parts[i], i, Join(parts[..i + 1]), i < |parts| - 1)] + CrumbsFrom(parts, i + 1)
  }

  /** The crumbs' split indices strictly increase: they follow the path. */
  predicate InPathOrder(crumbs: seq<Breadcrumb>) {
    forall k, l :: 0 <= k < l < |crumbs| ==> crumbs[k].segment < crumbs[l].segment
  }

  lemma {:induction false} CrumbsInPathOrder(parts: seq<string>, i: nat)
    requires i <= |parts|
    ensures InPathOrder(CrumbsFrom(parts, i))
    decreases |parts| - i
  {
    if i < |parts| {
      CrumbsInPathOrder(parts, i + 1);
      var r := CrumbsFrom(parts, i);
      var rest := CrumbsFrom(parts, i + 1);
      if parts[i] != "" {
        forall k, l | 0 <= k < l < |r| ensures r[k].segment < r[l].segment {
          assert r[l] == rest[l - 1];
          if k > 0 {
            assert r[k] == rest[k - 1];
          }
        }
      }
    }
  }

  /** The crumbs of the header for `assetPath`, in bar order. */
  function Crumbs(assetPath: string): (r: seq<Breadcrumb>)
    ensures InPathOrder(r)
    ensures forall k :: 0 <= k < |r| ==>
      r[k].segment < |Split(assetPath)| && r[k].text == Split(assetPath)[r[k].segment] && r[k].text != ""
  {
    CrumbsInPathOrder(Split(assetPath), 0);
    CrumbsFrom(Split(assetPath), 0)
  }

  /** What a crumb action does: all three issue their command on the crumb's target. */
  function Activate(c: Breadcrumb, action: CrumbAction): (cmd: Command)
    ensures cmd.path == c.target
    ensures action == Open <==> cmd.FocusAsset?
    ensures action == OpenAsTab <==> cmd.OpenAssetAsTab?
  {
    match action
    case Open => FocusAsset(c.target)
    case OpenAsTab => OpenAssetAsTab(c.target)
    case OpenAsFloating => OpenAssetAsFloating(c.target)
  }

  lemma {:induction false} CrumbLabelsFrom(parts: seq<string>, i: nat)
    requires i <= |parts|
    ensures Labels(CrumbsFrom(parts, i)) == NonEmpty(parts[i..])
    decreases |parts| - i
  {
    if i < |parts| {
      CrumbLabelsFrom(parts, i + 1);
      assert parts[i..][1..] == parts[i + 1..];
      var r := CrumbsFrom(parts, i);
      if parts[i] != "" {
        assert r[1..] == CrumbsFrom(parts, i + 1);
      }
    }
  }

  /** One crumb per non-empty segment, in path order, labelled with it. */
  lemma CrumbPerSegment(assetPath: string)
    ensures Labels(Crumbs(assetPath)) == NonEmpty(Split(assetPath))
  {
    CrumbLabelsFrom(Split(assetPath), 0);
    assert Split(assetPath)[0..] == Split(assetPath);
  }

  lemma {:induction false} CrumbShapeFrom(parts: seq<string>, i: nat)
    requires i <= |parts|
    ensures forall c :: c in CrumbsFrom(parts, i) ==>
      c.segment < |parts| && c.target == Join(parts[..c.segment + 1])
      && (c.separatorAfter <==> c.segment < |parts| - 1)
    decreases |parts| - i
  {
    if i < |parts| {
      CrumbShapeFrom(parts, i + 1);
    }
  }

  /** One crumb's target, prefix property and separator. */
  lemma CrumbTarget(assetPath: string, c: Breadcrumb)
    requires c in Crumbs(assetPath)
    ensures c.segment < |Split(assetPath)|
    ensures c.target == Join(Split(assetPath)[..c.segment + 1])
    ensures IsPrefix(c.target, assetPath)
    ensures c.segment == |Split(assetPath)| - 1 ==> c.target == assetPath
    ensures c.separatorAfter <==> c.segment < |Split(assetPath)| - 1
  {
    CrumbShapeFrom(Split(assetPath), 0);
    JoinTakeIsPrefix(assetPath, c.segment + 1);
  }

  /** Every crumb opens a prefix of the asset path: the join of the split
      segments up to its own. The crumb of the final segment opens the whole
      path, and a separator follows exactly the crumbs of earlier segments. */
  lemma CrumbTargets(assetPath: string)
    ensures forall c :: c in Crumbs(assetPath) ==>
      && c.target == Join(Split(assetPath)[..c.segment + 1])
      && IsPrefix(c.target, assetPath)
      && (c.segment == |Split(assetPath)| - 1 ==> c.target == assetPath)
      && (c.separatorAfter <==> c.segment < |Split(assetPath)| - 1)
  {
    forall c | c in Crumbs(assetPath)
      ensures c.target == Join(Split(assetPath)[..c.segment + 1])
      ensures IsPrefix(c.target, assetPath)
      ensures c.segment == |Split(assetPath)| - 1 ==> c.target == assetPath
      ensures c.separatorAfter <==> c.segment < |Split(assetPath)| - 1
    {
      CrumbTarget(assetPath, c);
    }
  }

  lemma {:induction false} SeparatorCountFrom(parts: seq<string>, i: nat)
    requires i < |parts|
    ensures var r := CrumbsFrom(parts, i);
      SeparatorCount(r) + (if parts[|parts| - 1] != "" then 1 else 0) == |r|
    decreases |parts| - i
  {
    var r := CrumbsFrom(parts, i);
    if i == |parts| - 1 {
      assert CrumbsFrom(parts, i + 1) == [];
      if parts[i] != "" {
        assert r[1..] == [];
      }
    } else {
      SeparatorCountFrom(parts, i + 1);
      if parts[i] != "" {
        assert r[1..] == CrumbsFrom(parts, i + 1);
      }
    }
  }

  lemma {:induction false} LastCrumbFrom(parts: seq<string>, i: nat)
    requires i < |parts| && parts[|parts| - 1] != ""
    ensures var r := CrumbsFrom(parts, i);
      |r| > 0 && r[|r| - 1].segment == |parts| - 1
    decreases |parts| - i
  {
    var r := CrumbsFrom(parts, i);
    var rest := CrumbsFrom(parts, i + 1);
    if i < |parts| - 1 {
      LastCrumbFrom(parts, i + 1);
      if parts[i] != "" {
        assert r[|r| - 1] == rest[|rest| - 1];
      }
    } else {
      assert rest == [];
    }
  }

  /** An empty path has no crumbs. */
  lemma EmptyPathHasNoCrumbs()
    ensures Crumbs("") == []
  {
    assert Split("") == [""];
    assert CrumbsFrom([""], 1) == [];
  }

  /** Separators: a trailing `/` leaves a separator after every crumb; any
      other non-empty path has one fewer separator than crumbs. */
  lemma SeparatorsBetweenCrumbs(assetPath: string)
    requires |assetPath| > 0
    ensures assetPath[|assetPath| - 1] == Slash ==>
      SeparatorCount(Crumbs(assetPath)) == |Crumbs(assetPath)|
    ensures assetPath[|assetPath| - 1] != Slash ==>
      |Crumbs(assetPath)| > 0 && SeparatorCount(Crumbs(assetPath)) == |Crumbs(assetPath)| - 1
  {
    var parts := Split(assetPath);
    LastSegmentEmpty(assetPath);
    SeparatorCountFrom(parts, 0);
    if assetPath[|assetPath| - 1] != Slash {
      LastCrumbFrom(parts, 0);
    }
  }

  /** A path without a trailing `/` ends in the crumb of its final segment,
      which opens the whole path and has no separator after it. */
  lemma LastCrumbOpensPath(assetPath: string)
    requires |assetPath| > 0 && assetPath[|assetPath| - 1] != Slash
    ensures |Crumbs(assetPath)| > 0
    ensures Crumbs(assetPath)[|Crumbs(assetPath)| - 1].target == assetPath
    ensures !Crumbs(assetPath)[|Crumbs(assetPath)| - 1].separatorAfter
  {
    var parts := Split(assetPath);
    LastSegmentEmpty(assetPath);
    LastCrumbFrom(parts, 0);
    var crumbs := Crumbs(assetPath);
    CrumbTarget(assetPath, crumbs[|crumbs| - 1]);
  }
}
