/**
  Migration of the data directory (packages/config/src/data-dir.ts) over an abstract
  file system whose calls fail by an arbitrary script.
 */
module DataDir {
  import opened Wrappers

  datatype Path = Primary | Legacy | Backup(stamp: nat) | Elsewhere(name: string)

  datatype Workspace = WorkspaceEmpty | WorkspaceData(data: nat) | WorkspaceSealed(data: nat)

  /**
    What a directory holds. Sealed directories cannot be listed; debris is what a
    partly done copy or removal leaves behind.
   */
  datatype Files = Bare | OnlyWorkspace(workspace: Workspace) | Full(data: nat) | Sealed(data: nat) | Debris

  datatype Node = Dir(files: Files) | Link(to: Path) | File(data: nat)

  type Tree = map<Path, Node>

  datatype Kind = Missing | Inaccessible | IsLink | IsDirectory | IsOther

  datatype Content = Empty | HasData | Unknown

  function ContentOf(files: Files): Content {
    match files
    case Bare => Empty
    case OnlyWorkspace(WorkspaceEmpty) => Empty
    case OnlyWorkspace(WorkspaceData(_)) => HasData
    case OnlyWorkspace(WorkspaceSealed(_)) => Unknown
    case Full(_) => HasData
    case Sealed(_) => Unknown
    case Debris => HasData
  }

  const MAX_HOPS: nat := 40

  /** Where a path leads once links are followed; None when it dangles or loops. */
  function Real(tree: Tree, p: Path, hops: nat): Option<Path>
    decreases hops
  {
    if p !in tree then None
    else
      match tree[p]
      case Link(to) => if hops == 0 then None else Real(tree, to, hops - 1)
      case _ => Some(p)
  }

  lemma {:induction false} RealIsNoLink(tree: Tree, p: Path, hops: nat)
    requires Real(tree, p, hops).Some?
    ensures Real(tree, p, hops).value in tree && !tree[Real(tree, p, hops).value].Link?
    decreases hops
  {
    if tree[p].Link? {
      RealIsNoLink(tree, tree[p].to, hops - 1);
    }
  }

  /** How one scripted call goes: as it naturally would, not at all, or half way. */
  datatype Fault = Fine | Fails | Partly

  function Head(faults: seq<Fault>): Fault {
    if faults == [] then Fine else faults[0]
  }

  function Rest(faults: seq<Fault>): seq<Fault> {
    if faults == [] then [] else faults[1..]
  }

  /** Whether the script lets a directory of these files be read. */
  predicate MayRead(faults: seq<Fault>, files: Files) {
    Head(faults) == Fine && (files.OnlyWorkspace? ==> Head(Rest(faults)) == Fine)
  }

  class FileSystem {
    var tree: Tree
    var faults: seq<Fault>
    /** Paths on another device than the home directory. */
    const foreign: set<Path>

    constructor (tree: Tree, faults: seq<Fault>, foreign: set<Path>)
      ensures this.tree == tree && this.faults == faults && this.foreign == foreign
    {
      this.tree, this.faults, this.foreign := tree, faults, foreign;
    }

    /** No call fails from here on, not even for renaming the legacy path to another device. */
    predicate Quiet()
      reads this
    {
      faults == [] && Legacy !in foreign
    }

    method Next() returns (f: Fault)
      modifies this`faults
      ensures old(Quiet()) ==> Quiet() && f == Fine
      ensures f == Head(old(faults)) && faults == Rest(old(faults))
    {
      if faults == [] {
        return Fine;
      }
      f, faults := faults[0], faults[1..];
    }

    method Lstat(p: Path) returns (kind: Kind)
      modifies this`faults
      ensures old(Quiet()) ==> Quiet() && kind != Inaccessible
      ensures KindOk(tree, p, kind)
      ensures (kind == Inaccessible <==> Head(old(faults)) != Fine) && faults == Rest(old(faults))
    {
      var f := Next();
      if f != Fine {
        return Inaccessible;
      }
      kind := if p !in tree then Missing
      else match tree[p] case Link(_) => IsLink case Dir(_) => IsDirectory case File(_) => IsOther;
    }

    method IsLinkTo(p: Path, target: Path) returns (yes: bool)
      modifies this`faults
      ensures yes ==> p in tree && tree[p] == Link(target)
      ensures old(Quiet()) ==> Quiet() && (yes <==> p in tree && tree[p] == Link(target))
    {
      var f := Next();
      yes := f == Fine && p in tree && tree[p] == Link(target);
    }

    /** `contentState`: two directory reads, either of which may fail. */
    method ContentState(files: Files) returns (c: Content)
      modifies this`faults
      ensures c == ContentOf(files) || c == Unknown
      ensures MayRead(old(faults), files) ==> c == ContentOf(files)
      ensures old(Quiet()) ==> Quiet() && c == ContentOf(files)
    {
      var f := Next();
      if f != Fine || files.Sealed? {
        return Unknown;
      }
      if files.OnlyWorkspace? {
        f := Next();
        if f != Fine {
          return Unknown;
        }
      }
      c := ContentOf(files);
    }

    /** Content behind a link: None when it leads to something that is no directory. */
    method LinkContent(p: Path) returns (c: Option<Content>)
      modifies this`faults
      ensures c == NaturalLinkContent(tree, p) || c == Some(Unknown)
      ensures old(Quiet()) ==> Quiet() && c == NaturalLinkContent(tree, p)
    {
      var f := Next();
      var end := Real(tree, p, MAX_HOPS);
      if f != Fine || end.None? {
        return Some(Unknown);
      }
      RealIsNoLink(tree, p, MAX_HOPS);
      if !tree[end.value].Dir? {
        return None;
      }
      var content := ContentState(tree[end.value].files);
      c := Some(content);
    }

    method Symlink(target: Path, p: Path) returns (ok: bool)
      modifies this
      ensures ok ==> p !in old(tree) && tree == old(tree)[p := Link(target)]
      ensures !ok ==> tree == old(tree)
      ensures old(Quiet()) ==> Quiet() && (ok <==> p !in old(tree))
    {
      var f := Next();
      ok := f == Fine && p !in tree;
      if ok {
        tree := tree[p := Link(target)];
      }
    }

    method Unlink(p: Path) returns (ok: bool)
      modifies this
      ensures ok ==> p in old(tree) && !old(tree)[p].Dir? && tree == old(tree) - {p}
      ensures !ok ==> tree == old(tree)
      ensures old(Quiet()) ==> Quiet() && (ok <==> p in old(tree) && !old(tree)[p].Dir?)
    {
      var f := Next();
      ok := f == Fine && p in tree && !tree[p].Dir?;
      if ok {
        tree := tree - {p};
      }
    }

    /** Renaming a directory replaces nothing but an empty directory. */
    method Rename(src: Path, dst: Path) returns (ok: bool, crossDevice: bool)
      modifies this
      ensures ok ==> CanRename(old(tree), src, dst) && tree == (if src == dst then old(tree) else (old(tree) - {src})[dst := old(tree)[src]])
      ensures !ok ==> tree == old(tree)
      ensures crossDevice ==> !ok && src in foreign
      ensures old(Quiet()) ==> Quiet()
      ensures old(Quiet()) && CanRename(old(tree), src, dst) ==> ok || crossDevice
      ensures old(Quiet()) && CanRename(old(tree), src, dst) && src !in foreign ==> ok
    {
      var f := Next();
      crossDevice := f == Fine && src in tree && src in foreign;
      ok := f == Fine && !crossDevice && CanRename(tree, src, dst);
      if ok && src != dst {
        tree := (tree - {src})[dst := tree[src]];
      }
    }

    /** Recursive removal; a half-done one leaves debris, or an emptied empty directory. */
    method Remove(p: Path) returns (ok: bool)
      modifies this
      ensures ok ==> p in old(tree) && tree == old(tree) - {p}
      ensures !ok ==> tree == old(tree) || (p in old(tree) && old(tree)[p].Dir? && tree == old(tree)[p := Dir(Remnant(old(tree)[p].files))])
      ensures old(Quiet()) ==> Quiet() && (ok <==> p in old(tree))
    {
      var f := Next();
      ok := f == Fine && p in tree;
      if ok {
        tree := tree - {p};
      } else if f == Partly && p in tree && tree[p].Dir? {
        tree := tree[p := Dir(Remnant(tree[p].files))];
      }
    }

    /** Recursive copy of a directory to a path where nothing is; a half-done one leaves debris there. */
    method Copy(src: Path, dst: Path) returns (ok: bool)
      modifies this
      ensures ok ==> src in old(tree) && old(tree)[src].Dir? && dst !in old(tree) && tree == old(tree)[dst := old(tree)[src]]
      ensures !ok ==> tree == old(tree) || (dst !in old(tree) && tree == old(tree)[dst := Dir(Debris)])
      ensures old(Quiet()) ==> Quiet() && (ok <==> src in old(tree) && old(tree)[src].Dir? && dst !in old(tree))
    {
      var f := Next();
      ok := f == Fine && src in tree && tree[src].Dir? && dst !in tree;
      if ok {
        tree := tree[dst := tree[src]];
      } else if f == Partly && dst !in tree {
        tree := tree[dst := Dir(Debris)];
      }
    }

    method Mkdir(p: Path)
      modifies this
      ensures tree == old(tree) || (p !in old(tree) && tree == old(tree)[p := Dir(Bare)])
      ensures old(Quiet()) ==> Quiet() && (p !in old(tree) ==> tree == old(tree)[p := Dir(Bare)])
    {
      var f := Next();
      if f == Fine && p !in tree {
        tree := tree[p := Dir(Bare)];
      }
    }
  }

  function Remnant(files: Files): Files {
    if ContentOf(files) == Empty then Bare else Debris
  }

  function NaturalLinkContent(tree: Tree, p: Path): Option<Content> {
    match Real(tree, p, MAX_HOPS)
    case None => Some(Unknown)
    case Some(q) => if q in tree && tree[q].Dir? then Some(ContentOf(tree[q].files)) else None
  }

  predicate CanRename(tree: Tree, src: Path, dst: Path) {
    src in tree && tree[src].Dir? && (src == dst || dst !in tree || tree[dst] == Dir(Bare))
  }

  // -------------------------------------------------------------- conservation

  /** Directories that hold, or may hold, data. */
  predicate Precious(files: Files) {
    ContentOf(files) != Empty
  }

  /** Places where the data of a directory at p may end up: where it was, the primary path, or the backup. */
  ghost predicate MayMoveTo(before: Tree, p: Path, q: Path, stamp: nat) {
    || q == p
    || (q == Primary && (p == Legacy || Real(before, Legacy, MAX_HOPS) == Some(p)))
    || (q == Backup(stamp) && p == Legacy)
  }

  ghost predicate Held(after: Tree, q: Path, files: Files) {
    q in after && after[q] == Dir(files)
  }

  /** Following links from a path reaches a directory of these files. */
  ghost predicate LeadsTo(tree: Tree, p: Path, files: Files) {
    Real(tree, p, MAX_HOPS).Some? && Held(tree, Real(tree, p, MAX_HOPS).value, files)
  }

  /** The way from the legacy path to its end is not through the primary path. */
  predicate Avoids(tree: Tree) {
    Real(tree - {Primary}, Legacy, MAX_HOPS) == Real(tree, Legacy, MAX_HOPS)
  }

  /** A way that is not through the primary path does not notice what happens there. */
  lemma {:induction false} RealAgrees(tree: Tree, after: Tree, p: Path, hops: nat)
    requires Real(tree - {Primary}, p, hops).Some?
    requires forall q :: q in tree && q != Primary ==> q in after && after[q] == tree[q]
    ensures Real(after, p, hops) == Real(tree - {Primary}, p, hops)
    decreases hops
  {
    if tree[p].Link? {
      RealAgrees(tree, after, tree[p].to, hops - 1);
    }
  }

  /** And leads nowhere once its end is gone. */
  lemma {:induction false} RealLost(tree: Tree, after: Tree, p: Path, hops: nat, end: Path)
    requires Real(tree - {Primary}, p, hops) == Some(end) && end !in after
    requires forall q :: q in tree && q != Primary && q != end ==> q in after && after[q] == tree[q]
    ensures Real(after, p, hops) == None
    decreases hops
  {
    if tree[p].Link? && p != end {
      RealLost(tree, after, tree[p].to, hops - 1, end);
    }
  }

  /** No directory that holds, or may hold, data has lost it. */
  ghost predicate NothingLost(before: Tree, after: Tree, stamp: nat) {
    forall p :: p in before && before[p].Dir? && Precious(before[p].files) ==>
      exists q :: MayMoveTo(before, p, q, stamp) && Held(after, q, before[p].files)
  }

  lemma UnchangedLosesNothing(tree: Tree, stamp: nat)
    ensures NothingLost(tree, tree, stamp)
  {
    forall p | p in tree && tree[p].Dir? && Precious(tree[p].files)
      ensures exists q :: MayMoveTo(tree, p, q, stamp) && Held(tree, q, tree[p].files)
    {
      assert MayMoveTo(tree, p, p, stamp) && Held(tree, p, tree[p].files);
    }
  }

  /** Removing a directory no link chain of p ends in, or a path that is no link, leaves the chain's end alone. */
  lemma {:induction false} RealWithout(tree: Tree, p: Path, hops: nat, gone: Path)
    requires Real(tree, p, hops).Some? && Real(tree, p, hops).value != gone
    requires gone in tree ==> !tree[gone].Link?
    ensures Real(tree - {gone}, p, hops) == Real(tree, p, hops)
    decreases hops
  {
    if tree[p].Link? {
      RealWithout(tree, tree[p].to, hops - 1, gone);
    }
  }

  // ------------------------------------------------------------- the procedures

  method CreateCompatLink(fs: FileSystem)
    modifies fs
    ensures fs.tree == old(fs.tree) || (Legacy !in old(fs.tree) && fs.tree == old(fs.tree)[Legacy := Link(Primary)])
    ensures old(fs.Quiet()) ==> fs.Quiet() && (Legacy !in old(fs.tree) ==> fs.tree == old(fs.tree)[Legacy := Link(Primary)])
  {
    var linked := fs.IsLinkTo(Legacy, Primary);
    if linked {
      return;
    }
    var _ := fs.Symlink(Primary, Legacy);
  }

  /** The tree after the legacy path has been cleared for the compatibility link. */
  function Cleared(tree: Tree, stamp: nat): Tree
    requires Legacy in tree
  {
    match tree[Legacy]
    case Dir(_) => (tree - {Legacy})[Backup(stamp) := tree[Legacy]]
    case _ => tree - {Legacy}
  }

  /** Whether a call-by-call faultless run may clear the legacy path. */
  predicate MayClear(tree: Tree, stamp: nat) {
    Legacy in tree &&
    match tree[Legacy]
    case Dir(_) => CanRename(tree, Legacy, Backup(stamp))
    case File(_) => true
    case Link(_) => NaturalLinkContent(tree, Legacy) == None || NaturalLinkContent(tree, Legacy) == Some(Empty)
  }

  method PrepareLegacyPathForLink(fs: FileSystem, stamp: nat) returns (ok: bool)
    modifies fs
    ensures fs.tree == old(fs.tree) || (MayClear(old(fs.tree), stamp) && fs.tree == Cleared(old(fs.tree), stamp))
    ensures old(fs.Quiet()) ==> fs.Quiet()
    ensures old(fs.Quiet()) && Legacy in old(fs.tree) && old(fs.tree)[Legacy] != Link(Primary) && MayClear(old(fs.tree), stamp) ==>
              ok && fs.tree == Cleared(old(fs.tree), stamp)
    ensures old(fs.Quiet()) && Legacy in old(fs.tree) && (old(fs.tree)[Legacy] == Link(Primary) || !MayClear(old(fs.tree), stamp)) ==>
              fs.tree == old(fs.tree)
    ensures old(fs.Quiet()) && Legacy !in old(fs.tree) ==> ok
  {
    var linked := fs.IsLinkTo(Legacy, Primary);
    if linked {
      return true;
    }
    var kind := fs.Lstat(Legacy);
    match kind {
      case Missing => ok := true;
      case IsLink =>
        var content := fs.LinkContent(Legacy);
        if content == Some(HasData) || content == Some(Unknown) {
          return false;
        }
        ok := fs.Unlink(Legacy);
      case IsOther => ok := fs.Unlink(Legacy);
      case IsDirectory =>
        var crossDevice;
        ok, crossDevice := fs.Rename(Legacy, Backup(stamp));
      case Inaccessible => ok := false;
    }
  }

  method EnsureCompatLink(fs: FileSystem, stamp: nat)
    modifies fs
    ensures fs.tree == old(fs.tree)
         || (Legacy !in old(fs.tree) && fs.tree == old(fs.tree)[Legacy := Link(Primary)])
         || (MayClear(old(fs.tree), stamp) &&
             (fs.tree == Cleared(old(fs.tree), stamp) || fs.tree == Cleared(old(fs.tree), stamp)[Legacy := Link(Primary)]))
    ensures old(fs.Quiet()) ==> fs.Quiet()
    ensures old(fs.Quiet()) && Legacy !in old(fs.tree) ==> fs.tree == old(fs.tree)[Legacy := Link(Primary)]
    ensures old(fs.Quiet()) && Legacy in old(fs.tree) && old(fs.tree)[Legacy] != Link(Primary) && MayClear(old(fs.tree), stamp) ==>
              fs.tree == Cleared(old(fs.tree), stamp)[Legacy := Link(Primary)]
    ensures old(fs.Quiet()) && Legacy in old(fs.tree) && (old(fs.tree)[Legacy] == Link(Primary) || !MayClear(old(fs.tree), stamp)) ==>
              fs.tree == old(fs.tree)
  {
    var ok := PrepareLegacyPathForLink(fs, stamp);
    if ok {
      CreateCompatLink(fs);
    }
  }

  /** Every directory with data is where it was, or was the legacy directory and is the backup now. */
  ghost predicate KeptAside(before: Tree, after: Tree, stamp: nat) {
    forall p :: p in before && before[p].Dir? && Precious(before[p].files) ==>
      Held(after, p, before[p].files) || (p == Legacy && Held(after, Backup(stamp), before[p].files))
  }

  lemma KeptAsideLosesNothing(before: Tree, mid: Tree, after: Tree, stamp: nat)
    requires KeptAside(mid, after, stamp)
    requires forall p :: p in before && before[p].Dir? && Precious(before[p].files) ==> p in mid && mid[p] == before[p]
    ensures NothingLost(before, after, stamp)
  {
    forall p | p in before && before[p].Dir? && Precious(before[p].files)
      ensures exists q :: MayMoveTo(before, p, q, stamp) && Held(after, q, before[p].files)
    {
      assert MayMoveTo(before, p, p, stamp) && MayMoveTo(before, Legacy, Backup(stamp), stamp);
    }
  }

  lemma ClearingLosesNothing(before: Tree, after: Tree, stamp: nat)
    requires MayClear(before, stamp)
    requires after == Cleared(before, stamp) || after == Cleared(before, stamp)[Legacy := Link(Primary)]
    ensures KeptAside(before, after, stamp)
  {
  }

  // -------------------------------------------------------- migrating a directory

  /** What became of a migration attempt. */
  datatype Attempt = Migrated | Failed | Stranded

  /**
    Legacy data sits in a real directory: one rename. `before` is the tree before the
    empty primary directory, if any, was removed.
   */
  method MigrateLegacyIntoPrimary(fs: FileSystem) returns (ok: bool)
    modifies fs
    ensures ok ==> CanRename(old(fs.tree), Legacy, Primary) && fs.tree == (old(fs.tree) - {Legacy})[Primary := old(fs.tree)[Legacy]]
    ensures !ok ==> fs.tree == old(fs.tree)
    ensures old(fs.Quiet()) ==> fs.Quiet() && (CanRename(old(fs.tree), Legacy, Primary) ==> ok)
  {
    var crossDevice;
    ok, crossDevice := fs.Rename(Legacy, Primary);
  }

  /** Everything but the primary path, the legacy path and the link's end is as before. */
  ghost predicate OnlyTouches(before: Tree, after: Tree, end: Path) {
    forall p :: p !in {Primary, Legacy, end} ==> (p in before <==> p in after) && (p in before ==> before[p] == after[p])
  }

  /** The link's data is still at its end, or already the primary directory. */
  ghost predicate DataSafe(before: Tree, after: Tree, end: Path)
    requires end in before
  {
    (end in after && after[end] == before[end]) || (Primary in after && after[Primary] == before[end])
  }

  method CopyLinkTarget(fs: FileSystem, end: Path) returns (ok: bool)
    requires end != Primary && end != Legacy && end in fs.tree && fs.tree[end].Dir?
    requires Legacy in fs.tree && fs.tree[Legacy].Link?
    modifies fs
    ensures OnlyTouches(old(fs.tree), fs.tree, end) && DataSafe(old(fs.tree), fs.tree, end)
    ensures ok ==> Legacy !in fs.tree && Primary in fs.tree && fs.tree[Primary] == old(fs.tree)[end]
    ensures !ok ==> end in fs.tree && fs.tree[end] == old(fs.tree)[end] && Legacy in fs.tree && fs.tree[Legacy] == old(fs.tree)[Legacy]
    ensures old(fs.Quiet()) ==> fs.Quiet() && (Primary !in old(fs.tree) ==> ok && fs.tree == (old(fs.tree) - {Legacy, end})[Primary := old(fs.tree)[end]])
  {
    ok := fs.Copy(end, Primary);
    if ok {
      ok := fs.Unlink(Legacy);
      if ok {
        var _ := fs.Remove(end);
        return;
      }
    }
    var f := fs.Next();
    if f == Fine && Real(fs.tree, Primary, MAX_HOPS).Some? {
      var _ := fs.Remove(Primary);
    }
  }

  /** The link's end moved to the primary path and the link gone. */
  function Adopted(tree: Tree): Tree
    requires Real(tree, Legacy, MAX_HOPS).Some? && Real(tree, Legacy, MAX_HOPS).value in tree
  {
    var end := Real(tree, Legacy, MAX_HOPS).value;
    (tree - {Legacy, end})[Primary := tree[end]]
  }

  method MigrateLinkTarget(fs: FileSystem) returns (attempt: Attempt)
    requires Legacy in fs.tree && fs.tree[Legacy].Link?
    requires var end := Real(fs.tree, Legacy, MAX_HOPS);
             end.Some? && end.value != Primary && end.value in fs.tree && fs.tree[end.value].Dir?
    modifies fs
    ensures var end := Real(old(fs.tree), Legacy, MAX_HOPS).value;
            && OnlyTouches(old(fs.tree), fs.tree, end) && DataSafe(old(fs.tree), fs.tree, end)
            && (attempt == Migrated ==> Legacy !in fs.tree && Primary in fs.tree && fs.tree[Primary] == old(fs.tree)[end])
            && (attempt != Migrated ==> Legacy in fs.tree && fs.tree[Legacy] == old(fs.tree)[Legacy])
            && (attempt == Failed ==> end in fs.tree && fs.tree[end] == old(fs.tree)[end])
            && (attempt == Stranded ==> end !in fs.tree && Primary in fs.tree && fs.tree[Primary] == old(fs.tree)[end])
    ensures old(fs.Quiet()) ==> fs.Quiet()
    ensures old(fs.Quiet()) && Primary !in old(fs.tree) ==> attempt == Migrated && fs.tree == Adopted(old(fs.tree))
  {
    RealIsNoLink(fs.tree, Legacy, MAX_HOPS);
    var end := Real(fs.tree, Legacy, MAX_HOPS).value;
    var f := fs.Next();
    if f != Fine {
      return Failed;
    }
    var ok, crossDevice := fs.Rename(end, Primary);
    if crossDevice {
      ok := CopyLinkTarget(fs, end);
      return if ok then Migrated else Failed;
    }
    if !ok {
      return Failed;
    }
    ok := fs.Unlink(Legacy);
    attempt := if ok then Migrated else Stranded;
  }

  // -------------------------------------------------------------- the entry point

  lemma MigrationLosesNothing(before: Tree, mid: Tree, after: Tree, end: Path, stamp: nat)
    requires Real(before, Legacy, MAX_HOPS) == Some(end) && end in before && end != Primary && end != Legacy
    requires Legacy in before && !before[Legacy].Dir?
    requires Primary in before && before[Primary].Dir? ==> !Precious(before[Primary].files)
    requires mid == before || mid == before - {Primary}
    requires OnlyTouches(mid, after, end) && DataSafe(mid, after, end)
    ensures NothingLost(before, after, stamp)
  {
    forall p | p in before && before[p].Dir? && Precious(before[p].files)
      ensures exists q :: MayMoveTo(before, p, q, stamp) && Held(after, q, before[p].files)
    {
      assert p != Primary && p != Legacy;
      if p == end && !(end in after && after[end] == before[end]) {
        assert MayMoveTo(before, p, Primary, stamp) && Held(after, Primary, before[p].files);
      } else {
        assert MayMoveTo(before, p, p, stamp) && Held(after, p, before[p].files);
      }
    }
  }

  lemma RenameLosesNothing(before: Tree, after: Tree, stamp: nat)
    requires Legacy in before
    requires Primary in before && before[Primary].Dir? ==> !Precious(before[Primary].files)
    requires after == ((before - {Primary}) - {Legacy})[Primary := before[Legacy]]
          || after == ((before - {Primary}) - {Legacy})[Primary := before[Legacy]][Legacy := Link(Primary)]
    ensures NothingLost(before, after, stamp)
  {
    forall p | p in before && before[p].Dir? && Precious(before[p].files)
      ensures exists q :: MayMoveTo(before, p, q, stamp) && Held(after, q, before[p].files)
    {
      if p == Legacy {
        assert MayMoveTo(before, p, Primary, stamp) && Held(after, Primary, before[p].files);
      } else {
        assert MayMoveTo(before, p, p, stamp) && Held(after, p, before[p].files);
      }
    }
  }

  lemma PrimaryDropLosesNothing(before: Tree, after: Tree, stamp: nat)
    requires Primary in before && before[Primary].Dir? && !Precious(before[Primary].files)
    requires after == before || after == before - {Primary} || after == before[Primary := Dir(Bare)]
    ensures NothingLost(before, after, stamp)
  {
    forall p | p in before && before[p].Dir? && Precious(before[p].files)
      ensures exists q :: MayMoveTo(before, p, q, stamp) && Held(after, q, before[p].files)
    {
      assert MayMoveTo(before, p, p, stamp) && Held(after, p, before[p].files);
    }
  }

  /** What the legacy path holds, directly or through links, on a faultless read. */
  function LegacyContent(tree: Tree): Option<Content> {
    if Legacy !in tree || tree[Legacy].File? then None
    else if tree[Legacy].Dir? then Some(ContentOf(tree[Legacy].files))
    else NaturalLinkContent(tree, Legacy)
  }

  /** The files of the directory the legacy path is, or leads to. */
  function LegacyFiles(tree: Tree): Option<Files> {
    match Real(tree, Legacy, MAX_HOPS)
    case None => None
    case Some(q) => if q in tree && tree[q].Dir? then Some(tree[q].files) else None
  }

  predicate PrimaryIsDir(tree: Tree) {
    Primary in tree && tree[Primary].Dir?
  }

  /** States a faultless run leaves alone, with the path it returns. */
  predicate Stable(tree: Tree, r: Path) {
    if PrimaryIsDir(tree) && Legacy in tree && tree[Legacy] == Link(Primary) then r == Primary
    else if PrimaryIsDir(tree) && Precious(tree[Primary].files) then
      r == Primary && Legacy in tree && tree[Legacy].Link? && LegacyContent(tree).Some? && LegacyContent(tree) != Some(Empty)
    else
      && r == Legacy && LegacyContent(tree) == Some(Unknown) && Legacy in tree && tree[Legacy] != Link(Primary)
      && (PrimaryIsDir(tree) || (Primary !in tree && tree[Legacy].Link?))
  }

  /** A compatibility link to a primary directory. */
  predicate Linked(tree: Tree) {
    PrimaryIsDir(tree) && Legacy in tree && tree[Legacy] == Link(Primary)
  }

  /** Before migrating, the primary path holds no data, and may already have been cleared. */
  ghost predicate Prepared(before: Tree, now: Tree) {
    && (Primary in before && before[Primary].Dir? ==> !Precious(before[Primary].files))
    && (now == before || (now == before - {Primary} && Primary in before && before[Primary].Dir?))
  }

  /** What became of data behind the legacy link: the path returned leads to it, or it is stranded at the primary path. */
  ghost predicate LinkedDataUsable(before: Tree, after: Tree, r: Path, stranded: bool) {
    LegacyFiles(before).Some? &&
    var files := LegacyFiles(before).value;
    && (!stranded && Avoids(before) ==> LeadsTo(after, r, files))
    && (stranded ==>
          && r == Legacy && Held(after, Primary, files)
          && Legacy in before && Legacy in after && after[Legacy] == before[Legacy] && Real(before, Legacy, MAX_HOPS).value !in after
          && (Avoids(before) ==> Real(after, Legacy, MAX_HOPS).None?))
  }

  /** Move the end of the legacy link to the primary path and leave a compatibility link. */
  method TakeOverLink(fs: FileSystem, ghost before: Tree, ghost stamp: nat) returns (r: Path, ghost stranded: bool)
    requires Prepared(before, fs.tree)
    requires Legacy in before && before[Legacy].Link? && LegacyContent(before) == Some(HasData)
    modifies fs
    ensures r == Primary || r == Legacy
    ensures NothingLost(before, fs.tree, stamp)
    ensures LinkedDataUsable(before, fs.tree, r, stranded)
    ensures old(fs.Quiet()) ==> fs.Quiet()
    ensures old(fs.Quiet()) && Primary !in old(fs.tree) ==> r == Primary && Linked(fs.tree) && !stranded
  {
    ghost var mid := fs.tree;
    ghost var end := Real(before, Legacy, MAX_HOPS).value;
    RealIsNoLink(before, Legacy, MAX_HOPS);
    if mid != before {
      RealWithout(before, Legacy, MAX_HOPS, Primary);
    }
    var attempt := MigrateLinkTarget(fs);
    ghost var moved := fs.tree;
    if attempt == Migrated {
      CreateCompatLink(fs);
    }
    MigrationLosesNothing(before, mid, fs.tree, end, stamp);
    r := if attempt == Migrated then Primary else Legacy;
    stranded := attempt == Stranded;
    if Avoids(before) {
      if attempt == Failed {
        RealAgrees(before, fs.tree, Legacy, MAX_HOPS);
      } else if attempt == Stranded {
        RealLost(before, fs.tree, Legacy, MAX_HOPS, end);
      }
    }
  }

  lemma StillThere(before: Tree, now: Tree, stamp: nat)
    requires Prepared(before, now)
    ensures NothingLost(before, now, stamp)
  {
    if now == before {
      UnchangedLosesNothing(before, stamp);
    } else {
      PrimaryDropLosesNothing(before, now, stamp);
    }
  }

  /** Rename the legacy directory to the primary path and leave a compatibility link. */
  method TakeOverDirectory(fs: FileSystem, ghost before: Tree, ghost stamp: nat) returns (r: Path)
    requires Prepared(before, fs.tree)
    requires Legacy in before && before[Legacy].Dir?
    modifies fs
    ensures r == Primary || r == Legacy
    ensures NothingLost(before, fs.tree, stamp)
    ensures Held(fs.tree, r, before[Legacy].files)
    ensures old(fs.Quiet()) ==> fs.Quiet()
    ensures old(fs.Quiet()) && Primary !in old(fs.tree) ==> r == Primary && Linked(fs.tree)
  {
    StillThere(before, fs.tree, stamp);
    ghost var mid := fs.tree;
    var ok := MigrateLegacyIntoPrimary(fs);
    if !ok {
      return Legacy;
    }
    assert fs.tree == ((before - {Primary}) - {Legacy})[Primary := before[Legacy]];
    CreateCompatLink(fs);
    RenameLosesNothing(before, fs.tree, stamp);
    return Primary;
  }

  lemma EmptyPrimaryIsAvoided(before: Tree)
    requires PrimaryIsDir(before) && ContentOf(before[Primary].files) == Empty
    requires Legacy in before && before[Legacy].Link? && LegacyContent(before) == Some(HasData)
    ensures Avoids(before)
  {
    RealWithout(before, Legacy, MAX_HOPS, Primary);
  }

  /** Nothing has happened but that the empty primary directory is still there, perhaps emptied further. */
  lemma NothingRemovedIsUsable(before: Tree, after: Tree)
    requires Legacy in before && before[Legacy].Link? && LegacyContent(before) == Some(HasData) && Avoids(before)
    requires PrimaryIsDir(before) && (after == before || after == before[Primary := Dir(Bare)])
    ensures LinkedDataUsable(before, after, Legacy, false)
  {
    RealAgrees(before, after, Legacy, MAX_HOPS);
    RealIsNoLink(before, Legacy, MAX_HOPS);
    RealIsNoLink(before - {Primary}, Legacy, MAX_HOPS);
  }

  /** The primary path is a directory with nothing in it, and the legacy path has data. */
  method MigrateIntoEmptyPrimary(fs: FileSystem, legacyKind: Kind, ghost stamp: nat) returns (r: Path, ghost stranded: bool)
    requires PrimaryIsDir(fs.tree) && ContentOf(fs.tree[Primary].files) == Empty
    requires Legacy in fs.tree && LegacyContent(fs.tree) == Some(HasData)
    requires legacyKind == if fs.tree[Legacy].Dir? then IsDirectory else IsLink
    modifies fs
    ensures r == Primary || r == Legacy
    ensures NothingLost(old(fs.tree), fs.tree, stamp)
    ensures legacyKind == IsDirectory ==> Held(fs.tree, r, old(fs.tree)[Legacy].files) && !stranded
    ensures legacyKind == IsLink ==> LinkedDataUsable(old(fs.tree), fs.tree, r, stranded) && Avoids(old(fs.tree))
    ensures old(fs.Quiet()) ==> fs.Quiet() && r == Primary && Linked(fs.tree) && !stranded
  {
    hide NothingLost, Real, NaturalLinkContent, LinkedDataUsable, Avoids, Linked;
    ghost var before := fs.tree;
    var removed := fs.Remove(Primary);
    PrimaryDropLosesNothing(before, fs.tree, stamp);
    if legacyKind == IsLink {
      EmptyPrimaryIsAvoided(before);
    }
    if !removed {
      if legacyKind == IsLink {
        NothingRemovedIsUsable(before, fs.tree);
      }
      return Legacy, false;
    }
    if legacyKind == IsLink {
      r, stranded := TakeOverLink(fs, before, stamp);
    } else {
      r := TakeOverDirectory(fs, before, stamp);
      stranded := false;
    }
  }

  /** The legacy path leaves a usable primary: a link, or whatever may not be replaced. */
  method LinkBesidePrimary(fs: FileSystem, stamp: nat)
    modifies fs
    ensures KeptAside(old(fs.tree), fs.tree, stamp)
    ensures old(fs.Quiet()) ==> fs.Quiet()
    ensures old(fs.Quiet()) && PrimaryIsDir(old(fs.tree)) && Backup(stamp) !in old(fs.tree) ==>
              || Linked(fs.tree)
              || (fs.tree == old(fs.tree) && Legacy in fs.tree && fs.tree[Legacy].Link?
                  && LegacyContent(fs.tree).Some? && LegacyContent(fs.tree) != Some(Empty))
    ensures old(fs.Quiet()) && Legacy in old(fs.tree) && old(fs.tree)[Legacy].Link? &&
            (old(fs.tree)[Legacy] == Link(Primary) || (LegacyContent(old(fs.tree)).Some? && LegacyContent(old(fs.tree)) != Some(Empty))) ==>
              fs.tree == old(fs.tree)
  {
    ghost var before := fs.tree;
    EnsureCompatLink(fs, stamp);
    if fs.tree != before && Legacy in before {
      ClearingLosesNothing(before, fs.tree, stamp);
    }
  }

  method ReadLegacyContent(fs: FileSystem, kind: Kind) returns (c: Content)
    requires kind == IsDirectory ==> Legacy in fs.tree && fs.tree[Legacy].Dir?
    requires kind == IsLink ==> Legacy in fs.tree && fs.tree[Legacy].Link?
    modifies fs`faults
    ensures (kind == IsDirectory || kind == IsLink) && c != Unknown ==> c == LegacyContent(fs.tree).GetOr(Empty)
    ensures c == HasData ==> (kind == IsDirectory || kind == IsLink) && LegacyContent(fs.tree) == Some(HasData)
    ensures old(fs.Quiet()) ==> fs.Quiet()
    ensures old(fs.Quiet()) && (kind == IsDirectory || kind == IsLink) ==> c == LegacyContent(fs.tree).GetOr(Empty)
    ensures kind != IsDirectory && kind != IsLink ==> c == Empty
  {
    match kind {
      case IsDirectory => c := fs.ContentState(fs.tree[Legacy].files);
      case IsLink =>
        var content := fs.LinkContent(Legacy);
        c := content.GetOr(Empty);
      case _ => c := Empty;
    }
  }

  /** Unreadable legacy data beside a primary directory without data stays where it is. */
  lemma UnreadableIsStable(tree: Tree)
    requires PrimaryIsDir(tree)
    ensures ContentOf(tree[Primary].files) == Empty && LegacyContent(tree) == Some(Unknown) ==> Stable(tree, Legacy)
    ensures ContentOf(tree[Primary].files) == Empty && LegacyContent(tree) == Some(Unknown) ==> forall q :: Stable(tree, q) ==> q == Legacy
  {
  }

  /** Legacy data beside a primary directory without data does not stay where it is. */
  lemma LegacyDataIsUnstable(tree: Tree)
    requires PrimaryIsDir(tree)
    ensures ContentOf(tree[Primary].files) == Empty && LegacyContent(tree) == Some(HasData) ==> forall q :: !Stable(tree, q)
  {
  }

  /** The legacy data stays usable through the path returned, or is stranded by a failing unlink. */
  ghost predicate LegacyUsable(before: Tree, after: Tree, r: Path, stranded: bool) {
    && (Legacy in before && before[Legacy].Dir? && Precious(before[Legacy].files) ==> Held(after, r, before[Legacy].files) && !stranded)
    && (Legacy in before && before[Legacy].Link? && LegacyFiles(before).Some? && Precious(LegacyFiles(before).value) ==>
          LinkedDataUsable(before, after, r, stranded))
  }

  /** Legacy data in a link's end that holds data is found as it is. */
  lemma PreciousIsContent(tree: Tree)
    requires Legacy in tree && LegacyFiles(tree).Some? && Precious(LegacyFiles(tree).value) && !tree[Legacy].File?
    ensures LegacyContent(tree) == Some(HasData) || LegacyContent(tree) == Some(Unknown)
  {
  }

  lemma UnchangedIsUsable(tree: Tree)
    ensures LegacyUsable(tree, tree, Legacy, false)
  {
  }

  lemma KeptPrimary(before: Tree, after: Tree, stamp: nat)
    requires PrimaryIsDir(before) && KeptAside(before, after, stamp)
    ensures Precious(before[Primary].files) ==> Held(after, Primary, before[Primary].files)
  {
  }

  method ResolveBesideDirectory(fs: FileSystem, legacyKind: Kind, stamp: nat) returns (r: Path, ghost stranded: bool)
    requires PrimaryIsDir(fs.tree)
    requires KindOk(fs.tree, Legacy, legacyKind)
    modifies fs
    ensures r == Primary || r == Legacy
    ensures NothingLost(old(fs.tree), fs.tree, stamp)
    ensures Precious(old(fs.tree)[Primary].files) ==> r == Primary && Held(fs.tree, Primary, old(fs.tree)[Primary].files)
    ensures !Precious(old(fs.tree)[Primary].files) && MayRead(old(fs.faults), old(fs.tree)[Primary].files) ==>
              LegacyUsable(old(fs.tree), fs.tree, r, stranded)
    ensures old(fs.Quiet()) ==> fs.Quiet()
    ensures old(fs.Quiet()) && legacyKind != Inaccessible && Backup(stamp) !in old(fs.tree) ==> Stable(fs.tree, r)
    ensures old(fs.Quiet()) && legacyKind != Inaccessible ==>
              forall q :: Stable(old(fs.tree), q) ==> r == q && fs.tree == old(fs.tree)
    ensures old(fs.Quiet()) && legacyKind != Inaccessible
            && !Precious(old(fs.tree)[Primary].files) && LegacyContent(old(fs.tree)) == Some(HasData) ==>
              r == Primary && Linked(fs.tree)
  {
    hide NothingLost, KeptAside, Real, NaturalLinkContent;
    ghost var before := fs.tree;
    var newContent := fs.ContentState(fs.tree[Primary].files);
    var legacyContent := ReadLegacyContent(fs, legacyKind);
    if newContent == Empty {
      if legacyKind == Inaccessible || legacyContent == Unknown {
        UnchangedLosesNothing(before, stamp);
        UnreadableIsStable(before);
        UnchangedIsUsable(before);
        return Legacy, false;
      }
      if legacyContent == HasData {
        LegacyDataIsUnstable(before);
        r, stranded := MigrateIntoEmptyPrimary(fs, legacyKind, stamp);
        return;
      }
    }
    LinkBesidePrimary(fs, stamp);
    KeptAsideLosesNothing(before, before, fs.tree, stamp);
    KeptPrimary(before, fs.tree, stamp);
    if Legacy in before && LegacyFiles(before).Some? && Precious(LegacyFiles(before).value) && !before[Legacy].File? {
      PreciousIsContent(before);
    }
    return Primary, false;
  }

  /** The primary path is missing, a link or a file. */
  method ResolveWithoutDirectory(fs: FileSystem, newKind: Kind, legacyKind: Kind, stamp: nat) returns (r: Path, ghost stranded: bool)
    requires !PrimaryIsDir(fs.tree)
    requires newKind != Inaccessible && KindOk(fs.tree, Primary, newKind) && KindOk(fs.tree, Legacy, legacyKind)
    modifies fs
    ensures r == Primary || r == Legacy
    ensures NothingLost(old(fs.tree), fs.tree, stamp)
    ensures LegacyUsable(old(fs.tree), fs.tree, r, stranded)
    ensures Legacy in old(fs.tree) && old(fs.tree)[Legacy].Dir? ==> Held(fs.tree, r, old(fs.tree)[Legacy].files)
    ensures old(fs.Quiet()) ==> fs.Quiet()
    ensures old(fs.Quiet()) && legacyKind != Inaccessible && Primary !in old(fs.tree) && Backup(stamp) !in old(fs.tree) ==>
              Stable(fs.tree, r)
    ensures old(fs.Quiet()) && legacyKind != Inaccessible && LegacyContent(old(fs.tree)) == Some(HasData) && Primary !in old(fs.tree) ==>
              r == Primary && Linked(fs.tree)
    ensures old(fs.Quiet()) && legacyKind != Inaccessible ==>
              forall q :: Stable(old(fs.tree), q) ==> r == q && fs.tree == old(fs.tree)
  {
    hide NothingLost, Precious, Real;
    ghost var before := fs.tree;
    UnchangedLosesNothing(before, stamp);
    UnchangedIsUsable(before);
    stranded := false;
    var linked := fs.IsLinkTo(Legacy, Primary);
    if linked {
      fs.Mkdir(Primary);
      NewPrimaryLosesNothing(before, fs.tree, stamp);
      LinkedIsNotAvoiding(before, fs.tree);
      return Primary, false;
    }
    if legacyKind == IsDirectory {
      r := TakeOverDirectory(fs, before, stamp);
      return;
    }
    if legacyKind == IsLink {
      var content := fs.LinkContent(Legacy);
      if content == Some(HasData) {
        r, stranded := TakeOverLink(fs, before, stamp);
        return;
      }
      if content == Some(Unknown) {
        return Legacy, false;
      }
    }
    if legacyKind == Inaccessible {
      return Legacy, false;
    }
    if Legacy in before && LegacyFiles(before).Some? && Precious(LegacyFiles(before).value) && !before[Legacy].File? {
      PreciousIsContent(before);
    }
    if newKind == IsLink || newKind == IsOther {
      return Primary, false;
    }
    CreatePrimary(fs, stamp);
    return Primary, false;
  }

  /** A legacy link straight to the primary path leads through it. */
  lemma LinkedIsNotAvoiding(before: Tree, after: Tree)
    requires Legacy in before && before[Legacy] == Link(Primary)
    requires after == before || (Primary !in before && after == before[Primary := Dir(Bare)])
    ensures LegacyUsable(before, after, Primary, false)
  {
    assert Real(before - {Primary}, Primary, MAX_HOPS - 1) == None;
    assert Real(before - {Primary}, Legacy, MAX_HOPS) == None;
  }

  /** Neither path holds anything to migrate: start with an empty primary directory. */
  method CreatePrimary(fs: FileSystem, stamp: nat)
    requires Primary !in fs.tree
    modifies fs
    ensures NothingLost(old(fs.tree), fs.tree, stamp)
    ensures old(fs.Quiet()) ==> fs.Quiet()
    ensures old(fs.Quiet()) && Backup(stamp) !in old(fs.tree) && (Legacy in old(fs.tree) ==> !old(fs.tree)[Legacy].Dir?)
            && LegacyContent(old(fs.tree)) != Some(Unknown) && LegacyContent(old(fs.tree)) != Some(HasData) ==>
              Linked(fs.tree)
  {
    hide NothingLost, KeptAside;
    ghost var before := fs.tree;
    fs.Mkdir(Primary);
    ghost var mid := fs.tree;
    if Legacy in before && before[Legacy].Link? && Real(before, Legacy, MAX_HOPS).Some? {
      RealWithNew(before, Legacy, MAX_HOPS, Primary);
    }
    LinkBesidePrimary(fs, stamp);
    KeptAsideLosesNothing(before, mid, fs.tree, stamp);
  }

  /** A chain that ends somewhere does not notice a path appearing where nothing was. */
  lemma {:induction false} RealWithNew(tree: Tree, p: Path, hops: nat, added: Path)
    requires Real(tree, p, hops).Some? && added !in tree
    ensures Real(tree[added := Dir(Bare)], p, hops) == Real(tree, p, hops)
    decreases hops
  {
    if tree[p].Link? {
      RealWithNew(tree, tree[p].to, hops - 1, added);
    }
  }

  lemma NewPrimaryLosesNothing(before: Tree, after: Tree, stamp: nat)
    requires after == before || (Primary !in before && after == before[Primary := Dir(Bare)])
    ensures NothingLost(before, after, stamp)
  {
    forall p | p in before && before[p].Dir? && Precious(before[p].files)
      ensures exists q :: MayMoveTo(before, p, q, stamp) && Held(after, q, before[p].files)
    {
      assert MayMoveTo(before, p, p, stamp) && Held(after, p, before[p].files);
    }
  }

  ghost predicate KindOk(tree: Tree, p: Path, kind: Kind) {
    match kind
    case Missing => p !in tree
    case IsLink => p in tree && tree[p].Link?
    case IsDirectory => p in tree && tree[p].Dir?
    case IsOther => p in tree && tree[p].File?
    case Inaccessible => true
  }

  /** The script lets the primary path be looked at and, if it is a directory, read, and that holds no data. */
  predicate PrimaryKnown(tree: Tree, faults: seq<Fault>) {
    && Head(faults) == Fine
    && (PrimaryIsDir(tree) ==> !Precious(tree[Primary].files) && MayRead(Rest(Rest(faults)), tree[Primary].files))
  }

  /**
    The whole resolution. Whatever calls fail, no directory that holds or may hold
    data loses it: it stays where it was, or is the primary directory, or is the
    backup of the legacy directory. And the path returned is of use: a primary directory
    with data is returned and keeps it; else, if the primary path could be looked at,
    legacy data is reached through the path returned, unless its link outlived a moved
    end. A faultless run that finds the primary path missing or a directory ends in a
    stable state, and takes a stable state to itself.
   */
  method ResolveDataDirPair(fs: FileSystem, stamp: nat) returns (r: Path, ghost stranded: bool)
    modifies fs
    ensures r == Primary || r == Legacy
    ensures NothingLost(old(fs.tree), fs.tree, stamp)
    ensures PrimaryIsDir(old(fs.tree)) && Precious(old(fs.tree)[Primary].files) ==>
              r == Primary && Held(fs.tree, Primary, old(fs.tree)[Primary].files)
    ensures PrimaryKnown(old(fs.tree), old(fs.faults)) ==> LegacyUsable(old(fs.tree), fs.tree, r, stranded)
    ensures Head(old(fs.faults)) == Fine && !PrimaryIsDir(old(fs.tree)) && Legacy in old(fs.tree) && old(fs.tree)[Legacy].Dir? ==>
              Held(fs.tree, r, old(fs.tree)[Legacy].files)
    ensures Head(old(fs.faults)) != Fine ==> r == Primary && fs.tree == old(fs.tree)
    ensures old(fs.Quiet()) ==> fs.Quiet()
    ensures old(fs.Quiet()) && (Primary !in old(fs.tree) || PrimaryIsDir(old(fs.tree))) && Backup(stamp) !in old(fs.tree) ==>
              Stable(fs.tree, r)
    ensures old(fs.Quiet()) ==> forall q :: Stable(old(fs.tree), q) ==> r == q && fs.tree == old(fs.tree)
    ensures old(fs.Quiet()) && LegacyContent(old(fs.tree)) == Some(HasData)
            && (Primary in old(fs.tree) ==> PrimaryIsDir(old(fs.tree)) && !Precious(old(fs.tree)[Primary].files)) ==>
              r == Primary && Linked(fs.tree)
  {
    hide NothingLost, Precious, Real, Stable, Linked, LegacyContent;
    ghost var before := fs.tree;
    var newKind := fs.Lstat(Primary);
    var legacyKind := fs.Lstat(Legacy);
    UnchangedLosesNothing(before, stamp);
    if newKind == Inaccessible {
      return Primary, false;
    }
    if newKind == IsDirectory {
      r, stranded := ResolveBesideDirectory(fs, legacyKind, stamp);
      return;
    }
    r, stranded := ResolveWithoutDirectory(fs, newKind, legacyKind, stamp);
  }

  /** Resolving twice without faults is resolving once: same path, same tree. */
  method ResolveTwice(fs: FileSystem, stamp: nat, later: nat) returns (first: Path, second: Path, ghost once: Tree)
    requires fs.Quiet()
    requires (Primary !in fs.tree || PrimaryIsDir(fs.tree)) && Backup(stamp) !in fs.tree
    modifies fs
    ensures first == second && fs.tree == once
    ensures Stable(once, first)
    ensures NothingLost(old(fs.tree), once, stamp)
  {
    ghost var stranded;
    first, stranded := ResolveDataDirPair(fs, stamp);
    once := fs.tree;
    second, stranded := ResolveDataDirPair(fs, later);
  }
}
