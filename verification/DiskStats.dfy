/**
 The per-scan disk statistics resolver: mounts reported by Radarr/Sonarr first, then the local disk
 behind a path mapping, with a cache in front of both.

 The operating system's disk usage is an oracle that does not change during a scan.
 */
module DiskStats {
  import opened Common
  import opened StableSort

  /** One reported mount; an absent size counts as zero. */
  datatype Mount = Mount(path: string, freeSpace: int, totalSpace: int)

  datatype PathMapping = PathMapping(sourcePrefix: string, localPrefix: string)

  datatype Usage = Usage(free: int, total: int)

  /** What `shutil.disk_usage` answers, or `None` when it raises. */
  type DiskOracle = string -> Option<Usage>

  type Stats = (int, real)

  function Percent(free: int, total: int): real {
    if total == 0 then 0.0 else free as real / total as real * 100.0
  }

  /** `replace("\\", "/")` */
  function ForwardSlashes(s: string): string {
    if s == [] then [] else [if s[0] == '\\' then '/' else s[0]] + ForwardSlashes(s[1..])
  }

  /** `rstrip("/")` */
  function StripTrailingSlashes(s: string): string {
    if s != [] && s[|s| - 1] == '/' then StripTrailingSlashes(s[..|s| - 1]) else s
  }

  lemma {:induction false} ForwardSlashesAt(s: string)
    ensures |ForwardSlashes(s)| == |s|
    ensures forall i :: 0 <= i < |s| ==> ForwardSlashes(s)[i] == if s[i] == '\\' then '/' else s[i]
  {
    if s != [] {
      ForwardSlashesAt(s[1..]);
    }
  }

  lemma {:induction false} StripTrailingSlashesAt(s: string)
    ensures var r := StripTrailingSlashes(s);
      && |r| <= |s| && r == s[..|r|]
      && (r == [] || r[|r| - 1] != '/')
      && forall i :: |r| <= i < |s| ==> s[i] == '/'
  {
    if s != [] && s[|s| - 1] == '/' {
      StripTrailingSlashesAt(s[..|s| - 1]);
    }
  }

  lemma NoBackslashes(s: string)
    requires forall i :: 0 <= i < |s| ==> s[i] != '\\'
    ensures ForwardSlashes(s) == s
  {
    ForwardSlashesAt(s);
  }

  /** The mount point an entry stands for; an entry without a path stands for none. */
  function MountPoint(m: Mount): string
    requires m.path != []
  {
    var stripped := StripTrailingSlashes(ForwardSlashes(m.path));
    if stripped == [] then "/" else stripped
  }

  /** The mount point is the path itself or one of its parent directories. */
  predicate Contains(point: string, path: string) {
    if point == "/" then "/" <= path else path == point || point + "/" <= path
  }

  predicate Covers(m: Mount, path: string) {
    m.path != [] && Contains(MountPoint(m), ForwardSlashes(path))
  }

  // ---- the uncached meaning of a lookup ----

  /** The first entry, in the given order, that covers the path. */
  ghost function FirstCovering(mounts: seq<Mount>, path: string): Option<Mount> {
    FirstMatch(mounts, m => Covers(m, path))
  }

  lemma FirstCoveringAt(mounts: seq<Mount>, path: string, i: nat)
    requires i < |mounts| && Covers(mounts[i], path) && forall j :: 0 <= j < i ==> !Covers(mounts[j], path)
    ensures FirstCovering(mounts, path) == Some(mounts[i])
  {
    assert FirstIndex(mounts, m => Covers(m, path)) == i;
  }

  lemma NoneCovering(mounts: seq<Mount>, path: string)
    requires forall j :: 0 <= j < |mounts| ==> !Covers(mounts[j], path)
    ensures FirstCovering(mounts, path) == None
  {
  }

  predicate Translates(m: PathMapping, path: string) {
    m.sourcePrefix != [] && m.sourcePrefix <= path
  }

  ghost function FirstMapping(mappings: seq<PathMapping>, path: string): Option<PathMapping> {
    FirstMatch(mappings, m => Translates(m, path))
  }

  ghost function LocalPath(mappings: seq<PathMapping>, path: string): string {
    match FirstMapping(mappings, path)
    case None => path
    case Some(m) => if m.sourcePrefix <= path then m.localPrefix + path[|m.sourcePrefix|..] else path
  }

  ghost function Uncached(mounts: seq<Mount>, mappings: seq<PathMapping>, disk: DiskOracle, path: string): Option<Stats> {
    match FirstCovering(mounts, path)
    case Some(m) => Some((m.freeSpace, Percent(m.freeSpace, m.totalSpace)))
    case None =>
      match disk(LocalPath(mappings, path))
      case None => None
      case Some(u) => Some((u.free, Percent(u.free, u.total)))
  }

  // ---- what a lookup means, character by character ----

  /** `t` is `s` with every backslash turned into a slash. */
  ghost predicate IsSlashed(s: string, t: string) {
    |t| == |s| && forall i :: 0 <= i < |s| ==> t[i] == if s[i] == '\\' then '/' else s[i]
  }

  /** `text` is `core` and slashes behind it, of which `core` has none at its end. */
  ghost predicate HasTrailing(text: string, core: string, slashes: string) {
    && text == core + slashes && (forall i :: 0 <= i < |slashes| ==> slashes[i] == '/')
    && (core != [] ==> core[|core| - 1] != '/')
  }

  /** The directory itself or a path below it; everything that begins with a slash lies below the root. */
  ghost predicate IsAtOrBelow(path: string, directory: string) {
    if directory == [] then |path| > 0 && path[0] == '/'
    else
      && |path| >= |directory| && (forall i :: 0 <= i < |directory| ==> path[i] == directory[i])
      && (|path| > |directory| ==> path[|directory|] == '/')
  }

  /** The path, in slashes, is at or below the mount's, in slashes and without trailing ones. */
  ghost predicate IsUnder(path: string, m: Mount) {
    |m.path| > 0 && exists core, slashes, p :: LiesUnder(path, m, core, slashes, p)
  }

  ghost predicate LiesUnder(path: string, m: Mount, core: string, slashes: string, p: string) {
    IsSlashed(m.path, core + slashes) && HasTrailing(core + slashes, core, slashes) && IsSlashed(path, p) && IsAtOrBelow(p, core)
  }

  lemma ContainsIff(core: string, path: string)
    requires core != [] ==> core[|core| - 1] != '/'
    ensures Contains(if core == [] then "/" else core, path) <==> IsAtOrBelow(path, core)
  {
    if core == [] {
      assert "/" <= path <==> |path| > 0 && path[0] == '/';
    } else {
      assert core != "/";
      if core + "/" <= path {
        assert path[|core|] == (core + "/")[|core|] && forall i :: 0 <= i < |core| ==> path[i] == (core + "/")[i];
      }
      if IsAtOrBelow(path, core) {
        if |path| == |core| {
          assert path == core;
        } else {
          assert core + "/" == path[..|core| + 1];
        }
      }
    }
  }

  lemma {:induction false} StrippedIs(text: string, core: string, slashes: string)
    requires HasTrailing(text, core, slashes)
    ensures StripTrailingSlashes(text) == core
    decreases |slashes|
  {
    if slashes == [] {
      assert text == core;
    } else {
      var n := |slashes| - 1;
      assert text[|text| - 1] == slashes[n];
      assert text[..|text| - 1] == core + slashes[..n];
      StrippedIs(text[..|text| - 1], core, slashes[..n]);
    }
  }

  lemma SlashedIs(s: string, t: string)
    requires IsSlashed(s, t)
    ensures ForwardSlashes(s) == t
  {
    ForwardSlashesAt(s);
  }

  lemma CoveredLiesUnder(m: Mount, path: string)
    requires Covers(m, path)
    ensures IsUnder(path, m)
  {
    var t, p := ForwardSlashes(m.path), ForwardSlashes(path);
    ForwardSlashesAt(m.path);
    ForwardSlashesAt(path);
    StripTrailingSlashesAt(t);
    var core := StripTrailingSlashes(t);
    var slashes := t[|core|..];
    assert core + slashes == t;
    ContainsIff(core, p);
    assert LiesUnder(path, m, core, slashes, p);
  }

  lemma UnderIsCovered(m: Mount, path: string, core: string, slashes: string, p: string)
    requires |m.path| > 0 && LiesUnder(path, m, core, slashes, p)
    ensures Covers(m, path)
  {
    SlashedIs(m.path, core + slashes);
    SlashedIs(path, p);
    StrippedIs(core + slashes, core, slashes);
    ContainsIff(core, p);
  }

  lemma CoversIff(m: Mount, path: string)
    ensures Covers(m, path) <==> IsUnder(path, m)
  {
    if Covers(m, path) {
      CoveredLiesUnder(m, path);
    }
    if IsUnder(path, m) {
      var core, slashes, p :| LiesUnder(path, m, core, slashes, p);
      UnderIsCovered(m, path, core, slashes, p);
    }
  }

  /** Of the total, in hundredths; nothing when the total is zero. */
  ghost predicate IsPercent(percent: real, free: int, total: int) {
    if total == 0 then percent == 0.0 else percent * total as real == free as real * 100.0
  }

  lemma PercentIs(free: int, total: int)
    ensures IsPercent(Percent(free, total), free, total)
  {
  }

  /** The first mount the path is under answers, with its free space and the percentage that is free. */
  lemma MountAnswers(mounts: seq<Mount>, mappings: seq<PathMapping>, disk: DiskOracle, path: string, k: nat)
    requires k < |mounts| && IsUnder(path, mounts[k]) && forall j :: 0 <= j < k ==> !IsUnder(path, mounts[j])
    ensures var stats := Uncached(mounts, mappings, disk, path);
      stats.Some? && stats.value.0 == mounts[k].freeSpace && IsPercent(stats.value.1, mounts[k].freeSpace, mounts[k].totalSpace)
  {
    forall j | 0 <= j <= k ensures Covers(mounts[j], path) <==> IsUnder(path, mounts[j]) {
      CoversIff(mounts[j], path);
    }
    FirstCoveringAt(mounts, path, k);
    PercentIs(mounts[k].freeSpace, mounts[k].totalSpace);
  }

  /** The mapping has a source prefix, and the path begins with it. */
  ghost predicate Applies(m: PathMapping, path: string) {
    0 < |m.sourcePrefix| <= |path| && forall i :: 0 <= i < |m.sourcePrefix| ==> path[i] == m.sourcePrefix[i]
  }

  /** Where the path lies locally: behind the first mapping that applies, or where it is. */
  ghost predicate IsLocal(mappings: seq<PathMapping>, path: string, local: string) {
    || (local == path && forall j :: 0 <= j < |mappings| ==> !Applies(mappings[j], path))
    || (exists k :: 0 <= k < |mappings| && Applies(mappings[k], path) && (forall j :: 0 <= j < k ==> !Applies(mappings[j], path))
          && local == mappings[k].localPrefix + path[|mappings[k].sourcePrefix|..])
  }

  lemma TranslatesIff(m: PathMapping, path: string)
    ensures Translates(m, path) <==> Applies(m, path)
  {
    if Applies(m, path) {
      assert m.sourcePrefix == path[..|m.sourcePrefix|];
    }
  }

  lemma LocalPathIs(mappings: seq<PathMapping>, path: string, local: string)
    requires IsLocal(mappings, path, local)
    ensures LocalPath(mappings, path) == local
  {
    forall m ensures Translates(m, path) <==> Applies(m, path) {
      TranslatesIff(m, path);
    }
    if k :| 0 <= k < |mappings| && Applies(mappings[k], path) && (forall j :: 0 <= j < k ==> !Applies(mappings[j], path))
            && local == mappings[k].localPrefix + path[|mappings[k].sourcePrefix|..] {
      assert FirstIndex(mappings, m => Translates(m, path)) == k;
    }
  }

  /** Only under no mount is the disk asked, at the place where the path lies locally, and its answer stands. */
  lemma DiskAnswers(mounts: seq<Mount>, mappings: seq<PathMapping>, disk: DiskOracle, path: string, local: string)
    requires (forall m :: m in mounts ==> !IsUnder(path, m)) && IsLocal(mappings, path, local)
    ensures var stats := Uncached(mounts, mappings, disk, path);
      && (stats == None <==> disk(local) == None)
      && (stats != None ==> stats.value.0 == disk(local).value.free
                            && IsPercent(stats.value.1, disk(local).value.free, disk(local).value.total))
  {
    forall j | 0 <= j < |mounts| ensures !Covers(mounts[j], path) {
      CoversIff(mounts[j], path);
    }
    NoneCovering(mounts, path);
    LocalPathIs(mappings, path, local);
    if disk(local) != None {
      PercentIs(disk(local).value.free, disk(local).value.total);
    }
  }

  class DiskStatsResolver {
    const mounts: seq<Mount>
    const mappings: seq<PathMapping>
    const disk: DiskOracle
    var cache: map<string, Option<Stats>>

    /** The cache never says anything a fresh lookup would not say. */
    ghost predicate Valid()
      reads this
    {
      forall p :: p in cache ==> cache[p] == Uncached(mounts, mappings, disk, p)
    }

    constructor (arrEntries: seq<Mount>, pathMappings: seq<PathMapping>, disk: DiskOracle)
      ensures Valid() && this.disk == disk
      ensures mounts == SortedByLength(arrEntries, (m: Mount) => |m.path|)
      ensures mappings == SortedByLength(pathMappings, (m: PathMapping) => |m.sourcePrefix|)
    {
      mounts := SortedByLength(arrEntries, (m: Mount) => |m.path|);
      mappings := SortedByLength(pathMappings, (m: PathMapping) => |m.sourcePrefix|);
      this.disk := disk;
      cache := map[];
    }

    method Resolve(path: string) returns (stats: Option<Stats>)
      requires Valid()
      modifies this`cache
      ensures Valid()
      ensures stats == Uncached(mounts, mappings, disk, path)
      ensures cache == old(cache)[path := stats]
    {
      if path in cache {
        stats := cache[path];
        assert cache == cache[path := stats];
        return;
      }
      stats := ResolveArr(path);
      if stats == None {
        stats := ResolveLocal(path);
      }
      cache := cache[path := stats];
    }

    method ResolveArr(path: string) returns (stats: Option<Stats>)
      ensures stats == match FirstCovering(mounts, path)
                       case None => None
                       case Some(m) => Some((m.freeSpace, Percent(m.freeSpace, m.totalSpace)))
    {
      for i := 0 to |mounts|
        invariant forall j :: 0 <= j < i ==> !Covers(mounts[j], path)
      {
        var m := mounts[i];
        if Covers(m, path) {
          FirstCoveringAt(mounts, path, i);
          return Some((m.freeSpace, Percent(m.freeSpace, m.totalSpace)));
        }
      }
      NoneCovering(mounts, path);
      stats := None;
    }

    method ResolveLocal(path: string) returns (stats: Option<Stats>)
      ensures stats == match disk(LocalPath(mappings, path))
                       case None => None
                       case Some(u) => Some((u.free, Percent(u.free, u.total)))
    {
      ghost var k := FirstIndex(mappings, m => Translates(m, path));
      var local := path;
      var i := 0;
      while i < |mappings|
        invariant 0 <= i <= |mappings|
        invariant local == path
        invariant i <= k
      {
        var m := mappings[i];
        if Translates(m, path) {
          local := m.localPrefix + path[|m.sourcePrefix|..];
          break;
        }
        i := i + 1;
      }
      var usage := disk(local);
      stats := if usage.None? then None else Some((usage.value.free, Percent(usage.value.free, usage.value.total)));
    }
  }

  // ---- which mount answers ----

  /** `inner` is a mount point strictly below `outer`. */
  predicate Nested(outer: string, inner: string) {
    outer != inner && Contains(outer, inner)
  }

  /** Two directories that contain one path are equal or nested. */
  lemma ContainersAreNested(a: string, b: string, path: string)
    requires Contains(a, path) && Contains(b, path) && |a| < |b|
    requires b == "/" || b[|b| - 1] != '/'
    ensures Nested(a, b)
  {
    if a == "/" {
      assert b[0] == path[0];
    } else {
      assert path[..|b|] == b;
      assert a + "/" <= path;
      assert (a + "/")[|a|] == path[|a|];
      assert b[..|a|] == a;
      assert b[|a|] == '/';
      assert a + "/" <= b;
    }
  }

  lemma MountPointShape(m: Mount)
    requires m.path != []
    ensures var p := MountPoint(m);
      && 1 <= |p| <= |m.path|
      && (p == "/" || p[|p| - 1] != '/')
      && ForwardSlashes(p) == p
  {
    var p := MountPoint(m);
    var f := ForwardSlashes(m.path);
    ForwardSlashesAt(m.path);
    StripTrailingSlashesAt(f);
    NoBackslashes(p);
  }

  /** The longest covering mount answers for every path. */
  ghost predicate LongestAnswers(mounts: seq<Mount>) {
    forall path: string :: LongestAnswersFor(mounts, path)
  }

  ghost predicate LongestAnswersFor(mounts: seq<Mount>, path: string) {
    var found := FirstCovering(mounts, path);
    forall m :: m in mounts && Covers(m, path) ==>
      found.Some? && found.value in mounts && Covers(found.value, path) && |MountPoint(m)| <= |MountPoint(found.value)|
  }

  /** Every mount comes before any mount that contains it, or a twin of it does. */
  ghost predicate InnerBeforeOuter(mounts: seq<Mount>) {
    forall i, j :: 0 <= i < j < |mounts| && NestedMounts(mounts[i], mounts[j]) ==> HasTwinBefore(mounts, i, mounts[j])
  }

  ghost predicate HasTwinBefore(mounts: seq<Mount>, i: nat, m: Mount)
    requires i <= |mounts|
  {
    exists k :: 0 <= k < i && SamePoint(mounts[k], m)
  }

  ghost predicate NestedMounts(outer: Mount, inner: Mount) {
    outer.path != [] && inner.path != [] && Nested(MountPoint(outer), MountPoint(inner))
  }

  ghost predicate SamePoint(a: Mount, b: Mount) {
    a.path != [] && b.path != [] && MountPoint(a) == MountPoint(b)
  }

  lemma MountPointEnds(m: Mount)
    requires m.path != []
    ensures MountPoint(m) == "/" || MountPoint(m)[|MountPoint(m)| - 1] != '/'
  {
    MountPointShape(m);
  }

  lemma CoversNest(shorter: Mount, longer: Mount, path: string)
    requires Covers(shorter, path) && Covers(longer, path) && |MountPoint(shorter)| < |MountPoint(longer)|
    ensures NestedMounts(shorter, longer)
  {
    MountPointEnds(longer);
    ContainersAreNested(MountPoint(shorter), MountPoint(longer), ForwardSlashes(path));
  }

  lemma NoTwinBeforeFirst(mounts: seq<Mount>, path: string, k: nat, m: Mount)
    requires k <= |mounts| && Covers(m, path)
    requires forall i :: 0 <= i < k ==> !Covers(mounts[i], path)
    ensures !HasTwinBefore(mounts, k, m)
  {
    forall i | 0 <= i < k ensures !SamePoint(mounts[i], m) {
      assert !Covers(mounts[i], path);
    }
  }

  lemma LaterCoverIsNoLonger(mounts: seq<Mount>, path: string, k: nat, j: nat)
    requires InnerBeforeOuter(mounts) && k <= j < |mounts|
    requires Covers(mounts[k], path) && Covers(mounts[j], path)
    requires !HasTwinBefore(mounts, k, mounts[j])
    ensures |MountPoint(mounts[j])| <= |MountPoint(mounts[k])|
  {
    var first, later := mounts[k], mounts[j];
    if |MountPoint(first)| < |MountPoint(later)| {
      CoversNest(first, later, path);
      assert false;
    }
  }

  lemma InnerBeforeOuterSuffices(mounts: seq<Mount>, path: string)
    requires InnerBeforeOuter(mounts)
    ensures LongestAnswersFor(mounts, path)
  {
    var k := FirstIndex(mounts, m => Covers(m, path));
    forall j | 0 <= j < |mounts| && Covers(mounts[j], path)
      ensures k < |mounts| && |MountPoint(mounts[j])| <= |MountPoint(mounts[k])|
    {
      NoTwinBeforeFirst(mounts, path, k, mounts[j]);
      LaterCoverIsNoLonger(mounts, path, k, j);
    }
  }

  lemma InnerBeforeOuterIsNeeded(mounts: seq<Mount>, i: nat, j: nat)
    requires i < j < |mounts| && NestedMounts(mounts[i], mounts[j])
    requires LongestAnswersFor(mounts, MountPoint(mounts[j]))
    ensures HasTwinBefore(mounts, i, mounts[j])
  {
    var path := MountPoint(mounts[j]);
    MountPointShape(mounts[j]);
    MountPointShape(mounts[i]);
    assert Covers(mounts[i], path) && Covers(mounts[j], path);
    var k := FirstIndex(mounts, m => Covers(m, path));
    var found := mounts[k];
    MountPointShape(found);
    assert |MountPoint(found)| >= |path|;
    assert MountPoint(found) == path;
    assert SamePoint(found, mounts[j]);
    assert k != i;
  }

  /**
   Exactly when the resolver answers with the longest mount containing each path: in the order it
   walks the entries, no mount precedes one nested in it.
   */
  lemma LongestAnswersIff(mounts: seq<Mount>)
    ensures LongestAnswers(mounts) <==> InnerBeforeOuter(mounts)
  {
    if InnerBeforeOuter(mounts) {
      forall path: string ensures LongestAnswersFor(mounts, path) {
        InnerBeforeOuterSuffices(mounts, path);
      }
    }
    if LongestAnswers(mounts) {
      forall i, j | 0 <= i < j < |mounts| && NestedMounts(mounts[i], mounts[j])
        ensures HasTwinBefore(mounts, i, mounts[j])
      {
        assert LongestAnswersFor(mounts, MountPoint(mounts[j]));
        InnerBeforeOuterIsNeeded(mounts, i, j);
      }
    }
  }

  /** At most one trailing slash (of either kind) beyond the mount point. */
  predicate AtMostOneTrailingSlash(m: Mount) {
    m.path != [] ==> |m.path| <= |MountPoint(m)| + (if MountPoint(m) == "/" then 0 else 1)
  }

  lemma InnerIsLonger(outer: Mount, inner: Mount)
    requires NestedMounts(outer, inner) && AtMostOneTrailingSlash(outer)
    ensures |outer.path| < |inner.path|
  {
    var o := MountPoint(outer);
    var i := MountPoint(inner);
    MountPointShape(inner);
    if o != "/" {
      assert o + "/" <= i;
      assert i[|o|] == (o + "/")[|o|] == '/';
      assert |i| >= |o| + 2;
    }
  }

  /** The sort by raw length then puts inner mounts first, so the longest mount answers every path. */
  lemma OneSlashMeansLongestAnswers(entries: seq<Mount>)
    requires forall m :: m in entries ==> AtMostOneTrailingSlash(m)
    ensures LongestAnswers(SortedByLength(entries, (m: Mount) => |m.path|))
  {
    var mounts := SortedByLength(entries, (m: Mount) => |m.path|);
    forall i, j | 0 <= i < j < |mounts| && NestedMounts(mounts[i], mounts[j]) ensures false {
      assert mounts[i] in entries;
      InnerIsLonger(mounts[i], mounts[j]);
    }
    LongestAnswersIff(mounts);
  }

  /** With several trailing slashes it can go wrong: the outer mount's entry is longer and wins. */
  lemma ManySlashesCanPickTheOuterMount(outer: Mount, inner: Mount)
    requires outer.path == "/a////" && inner.path == "/a/b"
    ensures var mounts := SortedByLength([inner, outer], (m: Mount) => |m.path|);
      && Covers(inner, "/a/b/c") && |MountPoint(inner)| > |MountPoint(outer)|
      && FirstCovering(mounts, "/a/b/c") == Some(outer)
  {
    OuterOfManySlashes(outer);
    InnerWithoutSlashes(inner);
    CoversByPoint(outer, "/a", "/a/b/c");
    CoversByPoint(inner, "/a/b", "/a/b/c");
    LongerRawPathFirst(inner, outer);
    FirstOfCovering(outer, inner, "/a/b/c");
  }

  lemma CoversByPoint(m: Mount, point: string, path: string)
    requires m.path != [] && MountPoint(m) == point && point != "/" && point + "/" <= path
    requires forall i :: 0 <= i < |path| ==> path[i] != '\\'
    ensures Covers(m, path)
  {
    NoBackslashes(path);
  }

  lemma FirstOfCovering(a: Mount, b: Mount, path: string)
    requires Covers(a, path)
    ensures FirstCovering([a, b], path) == Some(a)
  {
  }

  lemma LongerRawPathFirst(a: Mount, b: Mount)
    requires |a.path| < |b.path|
    ensures SortedByLength([a, b], (m: Mount) => |m.path|) == [b, a]
  {
    var length := (m: Mount) => |m.path|;
    assert [a, b][..1] == [a] && [a][..0] == [];
    assert SortedByLength([a], length) == InsertAfterEquals([], a, length) == [a];
    assert SortedByLength([a, b], length) == InsertAfterEquals([a], b, length) == [b, a];
  }

  lemma OuterOfManySlashes(m: Mount)
    requires m.path == "/a////"
    ensures MountPoint(m) == "/a"
  {
    NoBackslashes(m.path);
    StripTrailingSlashesAt(m.path);
    var stripped := StripTrailingSlashes(m.path);
    assert m.path[1] == 'a' && forall i :: 2 <= i < 6 ==> m.path[i] == '/';
    assert stripped != [] ==> stripped[|stripped| - 1] == m.path[|stripped| - 1];
    assert |stripped| == 2;
    assert stripped == m.path[..2] == "/a";
  }

  lemma InnerWithoutSlashes(m: Mount)
    requires m.path == "/a/b"
    ensures MountPoint(m) == "/a/b"
  {
    NoBackslashes(m.path);
  }

  /** Of several entries of one length that contain the path, the one reported first answers. */
  lemma FirstReportedAnswers(entries: seq<Mount>, path: string, answer: Mount)
    requires FirstCovering(SortedByLength(entries, (m: Mount) => |m.path|), path) == Some(answer)
    ensures FirstCovering(OfLength(entries, (m: Mount) => |m.path|, |answer.path|), path) == Some(answer)
  {
    var length := (m: Mount) => |m.path|;
    FirstIsFirstOfItsLength(SortedByLength(entries, length), length, m => Covers(m, path), answer);
    SortIsStable(entries, length, |answer.path|);
  }

  // ---- which mapping translates ----

  /** The translating mapping is one with the longest source prefix among those that apply. */
  lemma LongestMappingTranslates(mappings: seq<PathMapping>, path: string)
    ensures var sorted := SortedByLength(mappings, (m: PathMapping) => |m.sourcePrefix|);
      var chosen := FirstMapping(sorted, path);
      && (chosen.None? <==> forall m :: m in mappings ==> !Translates(m, path))
      && (chosen.None? ==> LocalPath(sorted, path) == path)
      && (chosen.Some? ==>
            && chosen.value in mappings && Translates(chosen.value, path)
            && (forall m :: m in mappings && Translates(m, path) ==> |m.sourcePrefix| <= |chosen.value.sourcePrefix|)
            && LocalPath(sorted, path) == chosen.value.localPrefix + path[|chosen.value.sourcePrefix|..])
  {
    var length := (m: PathMapping) => |m.sourcePrefix|;
    var sorted := SortedByLength(mappings, length);
    var k := FirstIndex(sorted, m => Translates(m, path));
    forall m | m in mappings && Translates(m, path) ensures k < |sorted| && |m.sourcePrefix| <= |sorted[k].sourcePrefix| {
      assert m in sorted;
      var j :| 0 <= j < |sorted| && sorted[j] == m;
      assert k <= j;
      assert k < j ==> length(sorted[k]) >= length(sorted[j]);
    }
  }
}
