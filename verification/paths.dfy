/** Path strings as the folder view sees them: `String.Split('/')` and
    `String.Join("/", …)` for the breadcrumb bar, and `Path.GetExtension`,
    `Path.GetFileName`, `Path.GetFileNameWithoutExtension` and `EndsWith`
    for the grid listing and the drop handler. */
module Paths {

  import opened Wrappers

  const Slash: char := '/'

  /** Directory separators recognised by `Path.GetExtension` and
      `Path.GetFileName` (the Windows pair; the volume separator is not modelled). */
  predicate IsSeparator(c: char) {
    c == '/' || c == '\\'
  }

  predicate IsPrefix(p: string, s: string) {
    |p| <= |s| && s[..|p|] == p
  }

  /** `s.EndsWith(suffix)`, comparing character by character. */
  predicate EndsWith(s: string, suffix: string) {
    |suffix| <= |s| && s[|s| - |suffix|..] == suffix
  }

  /** Number of occurrences of `c` in `s`. */
  function Count(s: string, c: char): nat {
    if |s| == 0 then 0 else (if s[0] == c then 1 else 0) + Count(s[1..], c)
  }

  /** `s.Split('/')`: every separator ends one segment and starts the next, so
      empty segments are kept (a leading, trailing or doubled `/` yields "").
      Built from the front: the first character either starts a new segment
      or extends the first segment of the rest. */
  function Split(s: string): (parts: seq<string>)
    ensures |parts| >= 1
    ensures forall i :: 0 <= i < |parts| ==> Slash !in parts[i]
    ensures |parts| == Count(s, Slash) + 1
    decreases |s|
  {
    if |s| == 0 then [""]
    else
      var rest := Split(s[1..]);
      if s[0] == Slash then [""] + rest
      else [[s[0]] + rest[0]] + rest[1..]
  }

  lemma {:induction false} CountAppend(a: string, b: string, c: char)
    ensures Count(a + b, c) == Count(a, c) + Count(b, c)
    decreases |a|
  {
    if |a| == 0 {
      assert a + b == b;
    } else {
      assert (a + b)[1..] == a[1..] + b;
      CountAppend(a[1..], b, c);
    }
  }

  lemma {:induction false} CountAbsent(a: string, c: char)
    ensures c !in a ==> Count(a, c) == 0
    decreases |a|
  {
    if |a| > 0 && c !in a {
      assert c !in a[1..] by {
        forall k | 0 <= k < |a[1..]| ensures a[1..][k] != c {
          assert a[1..][k] == a[k + 1];
        }
      }
      CountAbsent(a[1..], c);
    }
  }

  /** No part holds a `/`, as the segments of a split never do. */
  predicate SlashFree(parts: seq<string>) {
    forall i :: 0 <= i < |parts| ==> Slash !in parts[i]
  }

  /** `String.Join("/", parts)`. */
  function Join(parts: seq<string>): string {
    if |parts| == 0 then ""
    else if |parts| == 1 then parts[0]
    else parts[0] + [Slash] + Join(parts[1..])
  }

  /** `Join` puts one `/` between each neighbouring pair of parts and no
      other: the join of n slash-free parts holds n - 1 slashes. */
  lemma {:induction false} JoinCountsSlashes(parts: seq<string>)
    requires |parts| > 0 && SlashFree(parts)
    ensures Count(Join(parts), Slash) == |parts| - 1
    decreases |parts|
  {
    CountAbsent(parts[0], Slash);
    if |parts| > 1 {
      var rest := Join(parts[1..]);
      JoinCountsSlashes(parts[1..]);
      CountAppend(parts[0] + [Slash], rest, Slash);
      CountAppend(parts[0], [Slash], Slash);
      assert Count([Slash], Slash) == 1;
    }
  }

  /** Joining the segments of a split restores the string exactly. */
  lemma {:induction false} JoinSplit(s: string)
    ensures Join(Split(s)) == s
    decreases |s|
  {
    if |s| > 0 {
      var rest := Split(s[1..]);
      JoinSplit(s[1..]);
      if s[0] == Slash {
        assert Split(s) == [""] + rest;
        assert ([""] + rest)[1..] == rest;
        assert s == [s[0]] + s[1..];
      } else {
        var parts := [[s[0]] + rest[0]] + rest[1..];
        assert Split(s) == parts;
        if |rest| == 1 {
          assert Join(parts) == [s[0]] + rest[0];
          assert s == [s[0]] + s[1..];
        } else {
          assert parts[1..] == rest[1..];
          assert Join(rest) == rest[0] + [Slash] + Join(rest[1..]);
          assert Join(parts) == [s[0]] + rest[0] + [Slash] + Join(rest[1..]);
          assert s == [s[0]] + s[1..];
        }
      }
    }
  }

  /** A string with no separator splits into itself alone. */
  lemma {:induction false} SplitWithoutSlash(a: string)
    requires Slash !in a
    ensures Split(a) == [a]
    decreases |a|
  {
    if |a| > 0 {
      assert Slash !in a[1..] by {
        forall k | 0 <= k < |a[1..]| ensures a[1..][k] != Slash {
          assert a[1..][k] == a[k + 1];
        }
      }
      SplitWithoutSlash(a[1..]);
      assert a == [a[0]] + a[1..];
    }
  }

  /** A separator-free head followed by `/` contributes exactly one segment. */
  lemma {:induction false} SplitAfterSegment(a: string, b: string)
    requires Slash !in a
    ensures Split(a + [Slash] + b) == [a] + Split(b)
    decreases |a|
  {
    if |a| == 0 {
      assert a + [Slash] + b == [Slash] + b;
      assert ([Slash] + b)[1..] == b;
    } else {
      var s := a + [Slash] + b;
      assert s[1..] == a[1..] + [Slash] + b;
      assert Slash !in a[1..] by {
        forall k | 0 <= k < |a[1..]| ensures a[1..][k] != Slash {
          assert a[1..][k] == a[k + 1];
        }
      }
      SplitAfterSegment(a[1..], b);
      assert s[0] == a[0];
      assert [a[0]] + a[1..] == a;
    }
  }

  /** Splitting a join of separator-free segments gives the segments back. */
  lemma {:induction false} SplitJoin(parts: seq<string>)
    requires |parts| >= 1
    requires forall i :: 0 <= i < |parts| ==> Slash !in parts[i]
    ensures Split(Join(parts)) == parts
    decreases |parts|
  {
    if |parts| == 1 {
      SplitWithoutSlash(parts[0]);
    } else {
      assert Slash !in parts[0];
      SplitJoin(parts[1..]);
      SplitAfterSegment(parts[0], Join(parts[1..]));
      assert [parts[0]] + parts[1..] == parts;
    }
  }

  /** Joining two non-empty runs of segments puts one `/` between them. */
  lemma {:induction false} JoinAppend(a: seq<string>, b: seq<string>)
    requires |a| >= 1 && |b| >= 1
    ensures Join(a + b) == Join(a) + [Slash] + Join(b)
    decreases |a|
  {
    if |a| == 1 {
      assert (a + b)[1..] == b;
    } else {
      assert (a + b)[1..] == a[1..] + b;
      JoinAppend(a[1..], b);
    }
  }

  /** The join of the first `n` segments of a split is a prefix of the split
      string; joining all of them gives the string itself. */
  lemma JoinTakeIsPrefix(s: string, n: nat)
    requires 1 <= n <= |Split(s)|
    ensures IsPrefix(Join(Split(s)[..n]), s)
    ensures n == |Split(s)| ==> Join(Split(s)[..n]) == s
  {
    var parts := Split(s);
    JoinSplit(s);
    if n == |parts| {
      assert parts[..n] == parts;
    } else {
      assert parts == parts[..n] + parts[n..];
      JoinAppend(parts[..n], parts[n..]);
    }
  }

  /** The last segment is empty exactly when the string is empty or ends in `/`. */
  lemma {:induction false} LastSegmentEmpty(s: string)
    ensures var parts := Split(s);
      parts[|parts| - 1] == "" <==> (|s| == 0 || s[|s| - 1] == Slash)
    decreases |s|
  {
    if |s| > 0 {
      LastSegmentEmpty(s[1..]);
      var rest := Split(s[1..]);
      if |s| == 1 {
        assert s[1..] == "";
      } else {
        assert s[1..][|s[1..]| - 1] == s[|s| - 1];
      }
    }
  }

  /** Start of the file-name part: one past the last separator, or 0. */
  function FileNameStart(path: string): (r: nat)
    ensures r <= |path|
    ensures r > 0 ==> IsSeparator(path[r - 1])
    ensures forall k :: r <= k < |path| ==> !IsSeparator(path[k])
    decreases |path|
  {
    if |path| == 0 then 0
    else if IsSeparator(path[|path| - 1]) then |path|
    else
      var r := FileNameStart(path[..|path| - 1]);
      assert forall k :: 0 <= k < |path| - 1 ==> path[..|path| - 1][k] == path[k];
      r
  }

  /** Start of the extension: the index of the last `.` of the file-name
      part, if it has one. */
  function ExtensionStart(path: string): (r: Option<nat>)
    ensures r.Some? ==> FileNameStart(path) <= r.value < |path| && path[r.value] == '.'
    ensures r.Some? ==> forall k :: r.value < k < |path| ==> path[k] != '.'
    ensures r.None? ==> forall k :: FileNameStart(path) <= k < |path| ==> path[k] != '.'
    decreases |path|
  {
    if |path| == 0 then None
    else
      var c := path[|path| - 1];
      if c == '.' then Some(|path| - 1)
      else if IsSeparator(c) then None
      else
        var r := ExtensionStart(path[..|path| - 1]);
        assert forall k :: 0 <= k < |path| - 1 ==> path[..|path| - 1][k] == path[k];
        r
  }

  /** `Path.GetExtension`: from the last `.` of the file-name part to the end,
      or "" when there is no such dot or it is the final character. */
  function Extension(path: string): (ext: string)
    ensures ext == "" || (|ext| >= 2 && ext[0] == '.' && EndsWith(path, ext))
    ensures ext != "" <==> ExtensionStart(path).Some? && ExtensionStart(path).value < |path| - 1
    ensures ext != "" ==> |ext| == |path| - ExtensionStart(path).value
  {
    match ExtensionStart(path)
    case None => ""
    case Some(i) => if i == |path| - 1 then "" else path[i..]
  }

  /** `Path.GetFileName`: the text after the last separator. */
  function FileName(path: string): (name: string)
    ensures EndsWith(path, name)
    ensures forall k :: 0 <= k < |name| ==> !IsSeparator(name[k])
    ensures |name| == |path| || IsSeparator(path[|path| - |name| - 1])
  {
    path[FileNameStart(path)..]
  }

  /** `Path.GetFileNameWithoutExtension`: the file name up to its last `.`
      (a final dot included), or the whole file name when it has none. */
  function FileNameWithoutExtension(path: string): (base: string)
    ensures IsPrefix(base, FileName(path))
    ensures ExtensionStart(path).None? <==> base == FileName(path)
    ensures ExtensionStart(path).Some? ==> |base| == ExtensionStart(path).value - FileNameStart(path)
  {
    var name := FileName(path);
    match ExtensionStart(path)
    case None => name
    case Some(i) => name[..i - FileNameStart(path)]
  }

  /** The file name starts after the last separator. */
  lemma FileNameStartAt(path: string, j: nat)
    requires j < |path| && IsSeparator(path[j])
    requires forall k :: j < k < |path| ==> !IsSeparator(path[k])
    ensures FileNameStart(path) == j + 1
  {
  }

  /** The extension starts at the last dot of the file-name part. */
  lemma ExtensionStartAt(path: string, j: nat)
    requires FileNameStart(path) <= j < |path| && path[j] == '.'
    requires forall k :: j < k < |path| ==> path[k] != '.'
    ensures ExtensionStart(path) == Some(j)
  {
  }

  predicate HasNoSeparator(s: string) {
    forall k :: 0 <= k < |s| ==> !IsSeparator(s[k])
  }

  lemma NoSeparatorConcat(a: string, b: string)
    requires HasNoSeparator(a) && HasNoSeparator(b)
    ensures HasNoSeparator(a + b)
  {
    forall k | 0 <= k < |a + b| ensures !IsSeparator((a + b)[k]) {
      if k >= |a| { assert (a + b)[k] == b[k - |a|]; }
    }
  }

  /** The file name of `<dir>/<base><ext>` without its extension is `base`
      when `base` holds no separator and `ext` is a dot followed by neither
      separators nor dots. */
  lemma FileNameWithoutExtensionOf(dir: string, base: string, ext: string)
    requires HasNoSeparator(base)
    requires |ext| > 0 && ext[0] == '.'
    requires forall k :: 0 < k < |ext| ==> !IsSeparator(ext[k]) && ext[k] != '.'
    ensures FileNameWithoutExtension(dir + "/" + base + ext) == base
  {
    var path := dir + "/" + base + ext;
    var dot := |dir| + 1 + |base|;
    forall k | |dir| < k < |path| ensures !IsSeparator(path[k]) {
      if k < dot { assert path[k] == base[k - |dir| - 1]; }
      else { assert path[k] == ext[k - dot]; }
    }
    FileNameStartAt(path, |dir|);
    forall k | dot < k < |path| ensures path[k] != '.' {
      assert path[k] == ext[k - dot];
    }
    ExtensionStartAt(path, dot);
    assert path[|dir| + 1..][..|base|] == base;
  }
}
