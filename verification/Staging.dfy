/**
 Placing verified downloads into the staging tree (`stage_artifacts` in
 `crates/admin/src/laya.rs`), resumable after an interruption anywhere.

 Downloads deliver arbitrary bytes or fail, and the run may stop at any
 effect. The digest is some function of the bytes.
 */
module Staging {
  import opened Wrappers
  import opened Shared

  datatype Artifact = Artifact(url: string, path: Location, sha256: string, limit: nat, exactSize: Option<nat>)

  datatype Entry =
    | RegularFile(owner: nat, mode: bv16, bytes: Bytes)
    | Directory(owner: nat, mode: bv16)
    | Other(owner: nat, mode: bv16)

  type Tree = map<Location, Entry>

  datatype Error = Unsafe | Unexpected | Mismatch | Interrupted

  /** The permissions of what staging makes (0o755 and 0o644). */
  const DIRECTORY_MODE: bv16 := 0x1ED
  const FILE_MODE: bv16 := 0x1A4

  /** How much of a file is read at a time. */
  const READ_SIZE: nat := 0x10_0000

  const LOCK_PATH: Location := ["requirements.lock"]
  const MANIFEST_PATH: Location := ["models.sha256"]

  /** Owned, and without group or other write permission (0o022). */
  predicate Controlled(e: Entry, owner: nat) {
    e.owner == owner && e.mode & 0x12 == 0
  }

  predicate Safe(e: Entry, owner: nat) {
    Controlled(e, owner) && !e.Other?
  }

  /** Every entry lies in a directory of the tree. */
  ghost predicate Rooted(tree: Tree) {
    forall p <- tree :: p != [] ==> Parent(p) in tree && tree[Parent(p)].Directory?
  }

  predicate Below(at: Location, p: Location) {
    at < p
  }

  /** The pin, the size bound and the exact size are all met. */
  predicate Matches(digest: Bytes -> string, a: Artifact, bytes: Bytes) {
    && |bytes| <= a.limit
    && (a.exactSize.Some? ==> a.exactSize.value == |bytes|)
    && digest(bytes) == a.sha256
  }

  /** A safe regular file with the pinned content. */
  predicate Staged(digest: Bytes -> string, owner: nat, tree: Tree, a: Artifact) {
    a.path in tree && tree[a.path].RegularFile? && Controlled(tree[a.path], owner) && Matches(digest, a, tree[a.path].bytes)
  }

  ghost predicate DistinctPaths(artifacts: seq<Artifact>) {
    && (forall i, j | 0 <= i < j < |artifacts| :: artifacts[i].path != artifacts[j].path)
    && (forall a <- artifacts :: a.path != [] && a.path != LOCK_PATH && a.path != MANIFEST_PATH)
  }

  /** The directories above a path, the root first. */
  function Ancestors(p: Location): seq<Location> {
    if p == [] then [] else Ancestors(Parent(p)) + [Parent(p)]
  }

  function Directories(artifacts: seq<Artifact>): seq<Location> {
    if artifacts == [] then [[], ["wheels"], ["models"]]
    else Directories(artifacts[..|artifacts| - 1]) + Ancestors(artifacts[|artifacts| - 1].path)
  }

  predicate IsExpected(artifacts: seq<Artifact>, p: Location) {
    || (exists a <- artifacts :: a.path == p)
    || p == LOCK_PATH || p == MANIFEST_PATH
    || p in Directories(artifacts)
  }

  predicate IsDirectory(tree: Tree, p: Location) {
    p in tree && tree[p].Directory?
  }

  /** The files of the layout: the artifacts and the two manifests. */
  predicate IsPlanned(artifacts: seq<Artifact>, p: Location) {
    p == LOCK_PATH || p == MANIFEST_PATH || exists a <- artifacts :: a.path == p
  }

  /**
   A tree that staging can start from: directories where directories belong,
   none where a file belongs, and nothing that is unexpected or unsafe.
   */
  ghost predicate Fit(tree: Tree, artifacts: seq<Artifact>, owner: nat) {
    && (forall d <- Directories(artifacts) | d in tree :: tree[d].Directory? && Controlled(tree[d], owner))
    && AllBelow(tree, artifacts, owner, [])
    && (forall p | IsPlanned(artifacts, p) :: p !in Directories(artifacts) && !IsDirectory(tree, p))
  }

  /** What the network and the file system answered. */
  datatype Event =
    | Made(at: Location, ok: bool)
    | Delivered(a: Artifact, bytes: Option<Bytes>)
    | Moved(to: Location, ok: bool)

  /** The outside world failed the run: an operation, a download, or what was downloaded. */
  predicate Fails(digest: Bytes -> string, e: Event) {
    match e
    case Made(_, ok) => !ok
    case Delivered(a, bytes) => bytes.None? || !Matches(digest, a, bytes.value)
    case Moved(_, ok) => !ok
  }

  ghost predicate Troubled(digest: Bytes -> string, before: seq<Event>, after: seq<Event>) {
    exists k | |before| <= k < |after| :: Fails(digest, after[k])
  }

  /** The artifacts of a list that are not staged yet. */
  function Missing(digest: Bytes -> string, owner: nat, tree: Tree, artifacts: seq<Artifact>): seq<Artifact> {
    if artifacts == [] then []
    else
      var rest := Missing(digest, owner, tree, artifacts[..|artifacts| - 1]);
      var last := artifacts[|artifacts| - 1];
      if Staged(digest, owner, tree, last) then rest else rest + [last]
  }

  /** Only files that pass verification, the two manifests and new directories differ. */
  ghost predicate OnlyVerifiedPlaced(digest: Bytes -> string, owner: nat, before: Tree, after: Tree, artifacts: seq<Artifact>) {
    && (forall p <- before :: p in after)
    && (forall p <- after ::
          || (p in before && after[p] == before[p])
          || (p !in before && p in Directories(artifacts) && after[p].Directory? && Controlled(after[p], owner))
          || p == LOCK_PATH || p == MANIFEST_PATH
          || (after[p].mode == FILE_MODE
              && exists a <- artifacts :: a.path == p && Staged(digest, owner, after, a) && !Staged(digest, owner, before, a)))
  }

  class Stage {
    const owner: nat
    const digest: Bytes -> string
    const lockBytes: Bytes
    const manifestBytes: Bytes
    var tree: Tree
    /** The artifacts asked for over the network. */
    ghost var fetched: seq<Artifact>
    /** Everything the outside world answered. */
    ghost var events: seq<Event>

    constructor (owner: nat, digest: Bytes -> string, lockBytes: Bytes, manifestBytes: Bytes, tree: Tree)
      ensures this.tree == tree && this.owner == owner && this.digest == digest && fetched == [] && events == []
    {
      this.owner, this.digest, this.lockBytes, this.manifestBytes := owner, digest, lockBytes, manifestBytes;
      this.tree, this.fetched, this.events := tree, [], [];
    }

    /** Make a directory with these permissions, less whatever the mask of the process takes away. */
    method MakeDirectory(p: Location) returns (ok: bool)
      requires Rooted(tree) && p !in tree && (p == [] || IsDirectory(tree, Parent(p)))
      modifies this`tree, this`events
      ensures events == old(events) + [Made(p, ok)]
      ensures Rooted(tree)
      ensures tree == old(tree) ||
              (p in tree && tree == old(tree)[p := tree[p]] && tree[p].Directory? && Controlled(tree[p], owner))
      ensures ok ==> tree == old(tree)[p := Directory(owner, DIRECTORY_MODE)]
    {
      hide Controlled, NewDirectory;
      var created: bool, mask: bv16, permitted: bool := *, *, *;
      ok := created && permitted;
      if created {
        tree := tree[p := NewDirectory(owner, permitted, mask)];
      }
      events := events + [Made(p, ok)];
    }

    /**
     A directory that is there must be controlled; one that is not is made,
     readable by all and writable by its owner.
     */
    method OwnedDirectory(p: Location) returns (ok: bool)
      requires Rooted(tree) && (p == [] || IsDirectory(tree, Parent(p)))
      modifies this`tree, this`events
      ensures Rooted(tree) && old(events) <= events
      ensures forall q <- old(tree) :: q in tree && tree[q] == old(tree)[q]
      ensures forall q <- tree :: q in old(tree) || (q == p && tree[q].Directory? && Controlled(tree[q], owner))
      ensures ok ==> p in tree && tree[p].Directory? && Controlled(tree[p], owner)
      ensures ok && p !in old(tree) ==> tree[p] == Directory(owner, DIRECTORY_MODE)
      ensures p in old(tree) ==> ok == (old(tree)[p].Directory? && Controlled(old(tree)[p], owner))
      ensures p !in old(tree) ==> ok || Troubled(digest, old(events), events)
    {
      if p in tree {
        return tree[p].Directory? && Controlled(tree[p], owner);
      }
      hide Controlled;
      MadeControlled(owner);
      ok := MakeDirectory(p);
      assert !ok ==> Fails(digest, events[|old(events)|]);
    }

    /** Refuse anything below `at` that is not expected, not controlled, or neither file nor directory. */
    method CheckTree(at: Location, artifacts: seq<Artifact>) returns (ok: bool)
      requires Rooted(tree)
      ensures ok <==> AllBelow(tree, artifacts, owner, at)
      decreases |set p | p in tree && Below(at, p)|, 1
    {
      var children := Children(tree, at);
      var left := children;
      ghost var done: set<Location> := {};
      ok := true;
      while left != {}
        invariant left <= children && done + left == children
        invariant ok <==> AllPass(tree, artifacts, owner, done)
        decreases |left|
      {
        var child :| child in left;
        var allowed := CheckChild(at, child, artifacts);
        PassOneMore(tree, artifacts, owner, done, child);
        left, done := left - {child}, done + {child};
        ok := ok && allowed;
      }
      assert done == children;
      ChildrenDecide(tree, artifacts, owner, at);
    }

    method CheckChild(at: Location, child: Location, artifacts: seq<Artifact>) returns (allowed: bool)
      requires Rooted(tree) && child in Children(tree, at)
      ensures allowed <==> ChildPasses(tree, artifacts, owner, child)
      decreases |set p | p in tree && Below(at, p)|, 0
    {
      var entry := tree[child];
      allowed :=
        && IsExpected(artifacts, child)
        && (entry.Directory? || entry.RegularFile?)
        && entry.owner == owner
        && entry.mode & 0x12 == 0;
      if allowed && tree[child].Directory? {
        FewerBelow(tree, at, child);
        allowed := CheckTree(child, artifacts);
      }
    }

    /** Read a file piece by piece, and compare what was read with the pin. */
    method VerifyFile(a: Artifact, file: Bytes) returns (ok: bool)
      ensures ok <==> Matches(digest, a, file)
    {
      var hashed: Bytes := [];
      while |hashed| < |file|
        invariant |hashed| <= |file| && hashed == file[..|hashed|] && |hashed| <= a.limit
        decreases |file| - |hashed|
      {
        var count: nat :| 0 < count <= |file| - |hashed| && count <= READ_SIZE;
        hashed := hashed + file[|hashed|..|hashed| + count];
        if |hashed| > a.limit {
          return false;
        }
      }
      assert hashed == file;
      return (a.exactSize.None? || a.exactSize.value == |hashed|) && digest(hashed) == a.sha256;
    }

    /** Whether a file is there and matches; anything unsafe is refused, and nothing else is. */
    method IsStaged(a: Artifact) returns (r: Result<bool, Error>)
      ensures r.Success? ==> r.value == Staged(digest, owner, tree, a)
      ensures r.Failure? <==> a.path in tree && !(tree[a.path].RegularFile? && Controlled(tree[a.path], owner))
    {
      if a.path !in tree {
        return Success(false);
      }
      var entry := tree[a.path];
      if !entry.RegularFile? || !Controlled(entry, owner) {
        return Failure(Unsafe);
      }
      var verified := VerifyFile(a, entry.bytes);
      return Success(verified);
    }

    /** Download into the private work directory. */
    method Fetch(a: Artifact) returns (r: Option<Bytes>)
      modifies this`fetched, this`events
      ensures fetched == old(fetched) + [a] && events == old(events) + [Delivered(a, r)]
    {
      var arrives: bool, bytes: Bytes := *, *;
      r := if arrives then Some(bytes) else None;
      fetched, events := fetched + [a], events + [Delivered(a, r)];
    }

    /** Put a file in place by renaming; a directory is never replaced. */
    method Place(p: Location, bytes: Bytes) returns (ok: bool)
      requires Rooted(tree) && p != [] && IsDirectory(tree, Parent(p))
      modifies this`tree, this`events
      ensures Rooted(tree) && old(events) <= events
      ensures tree == if ok then old(tree)[p := Placed(owner, bytes)] else old(tree)
      ensures ok ==> !IsDirectory(old(tree), p)
      ensures !ok ==> IsDirectory(old(tree), p) || Troubled(digest, old(events), events)
    {
      if IsDirectory(tree, p) {
        return false;
      }
      ok := *;
      events := events + [Moved(p, ok)];
      assert !ok ==> Fails(digest, events[|old(events)|]);
      if ok {
        tree := tree[p := Placed(owner, bytes)];
      }
    }

    /** Create the staging layout. */
    method MakeDirectories(artifacts: seq<Artifact>) returns (ok: bool)
      requires Rooted(tree)
      modifies this`tree, this`events
      ensures Rooted(tree) && DirectoriesAdded(owner, Directories(artifacts), old(tree), tree) && old(events) <= events
      ensures ok ==> LaidOut(tree, Directories(artifacts)) && Kept(owner, old(tree), Directories(artifacts))
      ensures !ok ==> !Kept(owner, old(tree), Directories(artifacts)) || Troubled(digest, old(events), events)
    {
      var directories := Directories(artifacts);
      ok := true;
      for i := 0 to |directories|
        invariant Rooted(tree) && DirectoriesAdded(owner, directories, old(tree), tree) && old(events) <= events
        invariant ok && LaidOut(tree, directories[..i]) && Kept(owner, old(tree), directories[..i])
      {
        ghost var before := tree;
        ParentsFirst(artifacts, i);
        ok := OwnedDirectory(directories[i]);
        LaidOutNext(before, tree, directories, i);
        KeptNext(owner, old(tree), before, directories, i);
        if !ok {
          return;
        }
      }
      assert directories[..|directories|] == directories;
    }

    /** Fetch, verify and place one artifact that is not staged. */
    method Obtain(a: Artifact) returns (ok: bool)
      requires Rooted(tree) && a.path != [] && IsDirectory(tree, Parent(a.path))
      modifies this`tree, this`fetched, this`events
      ensures Rooted(tree) && fetched == old(fetched) + [a] && old(events) <= events
      ensures !ok ==> tree == old(tree)
      ensures ok ==>
                exists bytes :: Matches(digest, a, bytes) && tree == old(tree)[a.path := Placed(owner, bytes)]
      ensures ok ==> !IsDirectory(old(tree), a.path)
      ensures !ok ==> IsDirectory(old(tree), a.path) || Troubled(digest, old(events), events)
    {
      var candidate := Fetch(a);
      ghost var delivered := events;
      assert delivered[|old(events)|] == Delivered(a, candidate);
      if candidate.None? {
        return false;
      }
      var verified := VerifyFile(a, candidate.value);
      if !verified {
        return false;
      }
      ok := Place(a.path, candidate.value);
      TroubleLater(digest, old(events), delivered, events, events);
    }

    /** The loop over the artifacts: skip what is staged, obtain the rest. */
    method ObtainAll(ghost start: Tree, artifacts: seq<Artifact>) returns (r: Result<nat, Error>)
      requires Rooted(tree) && LaidOut(tree, Directories(artifacts)) && AllBelow(tree, artifacts, owner, [])
      requires DistinctPaths(artifacts) && Progress(digest, owner, start, tree, artifacts, 0)
      modifies this`tree, this`fetched, this`events
      ensures Rooted(tree) && OnlyVerifiedPlaced(digest, owner, start, tree, artifacts)
      ensures old(events) <= events && SameDirectories(old(tree), tree)
      ensures forall p | p == LOCK_PATH || p == MANIFEST_PATH :: AsBefore(start, tree, p)
      ensures r.Success? <== Clear(old(tree), artifacts) && !Troubled(digest, old(events), events)
      ensures r.Success? ==> Clear(old(tree), artifacts)
      ensures AskedFor(old(fetched), fetched, Missing(digest, owner, start, artifacts))
      ensures r.Success? ==>
                && LaidOut(tree, Directories(artifacts)) && AllBelow(tree, artifacts, owner, [])
                && fetched == old(fetched) + Missing(digest, owner, start, artifacts)
                && r.value == |Missing(digest, owner, start, artifacts)|
                && (forall a <- artifacts :: Staged(digest, owner, tree, a))
    {
      hide AllBelow, LaidOut, OnlyVerifiedPlaced, Staged, Troubled, Progress, Missing, AskedFor, Rooted, DistinctPaths, Clear;
      hide SameDirectories;
      var downloaded := 0;
      NoMoreDirectories(tree, tree, artifacts, 0);
      assert fetched + [] == fetched;
      NoneMissing(digest, owner, start, artifacts);
      for i := 0 to |artifacts|
        invariant Rooted(tree) && LaidOut(tree, Directories(artifacts)) && AllBelow(tree, artifacts, owner, [])
        invariant Progress(digest, owner, start, tree, artifacts, i)
        invariant fetched == old(fetched) + Missing(digest, owner, start, artifacts[..i])
        invariant downloaded == |Missing(digest, owner, start, artifacts[..i])|
        invariant old(events) <= events && SameDirectories(old(tree), tree)
        invariant Clear(old(tree), artifacts[..i])
      {
        ghost var before, tree' := events, tree;
        ManifestsAsBefore(digest, owner, start, tree, artifacts, i);
        AskedSoFar(digest, owner, start, artifacts, i, old(fetched), fetched);
        ProgressPlaced(digest, owner, start, tree, artifacts, i);
        var one := ObtainOne(start, artifacts, i);
        NoMoreDirectories(old(tree), tree', artifacts, i);
        StillSameDirectories(old(tree), tree', tree);
        if one.Failure? {
          TroubleLater(digest, old(events), before, events, events);
          return Failure(one.error);
        }
        downloaded := downloaded + one.value;
      }
      assert artifacts[..|artifacts|] == artifacts;
      AskedPart(old(fetched), Missing(digest, owner, start, artifacts), Missing(digest, owner, start, artifacts));
      ProgressPlaced(digest, owner, start, tree, artifacts, |artifacts|);
      ManifestsAsBefore(digest, owner, start, tree, artifacts, |artifacts|);
      AllStaged(digest, owner, start, tree, artifacts);
      return Success(downloaded);
    }

    /** One turn of the loop; returns how many downloads it took. */
    method ObtainOne(ghost start: Tree, artifacts: seq<Artifact>, i: nat) returns (r: Result<nat, Error>)
      requires i < |artifacts| && DistinctPaths(artifacts)
      requires Rooted(tree) && LaidOut(tree, Directories(artifacts)) && AllBelow(tree, artifacts, owner, [])
      requires Progress(digest, owner, start, tree, artifacts, i)
      modifies this`tree, this`fetched, this`events
      ensures Rooted(tree) && old(events) <= events && SameDirectories(old(tree), tree)
      ensures r.Failure? ==> tree == old(tree)
      ensures r.Success? ==> !IsDirectory(old(tree), artifacts[i].path)
      ensures r.Failure? ==> IsDirectory(old(tree), artifacts[i].path) || Troubled(digest, old(events), events)
      ensures fetched == old(fetched) ||
              (fetched == old(fetched) + [artifacts[i]] && !Staged(digest, owner, start, artifacts[i]))
      ensures r.Success? ==>
                && LaidOut(tree, Directories(artifacts)) && AllBelow(tree, artifacts, owner, [])
                && Progress(digest, owner, start, tree, artifacts, i + 1)
                && r.value == (if Staged(digest, owner, start, artifacts[i]) then 0 else 1)
                && fetched == old(fetched) + if Staged(digest, owner, start, artifacts[i]) then [] else [artifacts[i]]
    {
      hide AllBelow, LaidOut, Staged, Troubled, Progress, Rooted, SameDirectories, DistinctPaths, Directories;
      var a := artifacts[i];
      ReadyFor(tree, artifacts, owner, i);
      StillSameDirectories(tree, tree, tree);
      StagedAsAtStart(digest, owner, start, tree, artifacts, i);
      var there := IsStaged(a);
      if there.Failure? {
        return Failure(there.error);
      }
      if there.value {
        ProgressSkip(digest, owner, start, tree, artifacts, i);
        return Success(0);
      }
      var obtained := Obtain(a);
      if !obtained {
        return Failure(Mismatch);
      }
      ghost var bytes :| Matches(digest, a, bytes) && tree == old(tree)[a.path := Placed(owner, bytes)];
      ProgressPlace(digest, owner, start, old(tree), artifacts, i, bytes);
      AllowedPlace(old(tree), artifacts, owner, a.path, bytes);
      FilePlaced(old(tree), a.path, Placed(owner, bytes));
      return Success(1);
    }

    /** Last, the manifests the provisioner checks against. */
    method WriteManifests(ghost start: Tree, artifacts: seq<Artifact>) returns (ok: bool)
      requires Rooted(tree) && LaidOut(tree, Directories(artifacts)) && AllBelow(tree, artifacts, owner, [])
      requires DistinctPaths(artifacts) && OnlyVerifiedPlaced(digest, owner, start, tree, artifacts)
      requires forall p | p == LOCK_PATH || p == MANIFEST_PATH :: AsBefore(start, tree, p)
      modifies this`tree, this`events
      ensures Rooted(tree) && OnlyVerifiedPlaced(digest, owner, start, tree, artifacts) && old(events) <= events
      ensures Written(start, tree, LOCK_PATH, Placed(owner, lockBytes))
      ensures Written(start, tree, MANIFEST_PATH, Placed(owner, manifestBytes))
      ensures ok ==> !IsDirectory(old(tree), LOCK_PATH) && !IsDirectory(old(tree), MANIFEST_PATH)
      ensures !ok ==>
                || IsDirectory(old(tree), LOCK_PATH) || IsDirectory(old(tree), MANIFEST_PATH)
                || Troubled(digest, old(events), events)
      ensures forall a <- artifacts :: Staged(digest, owner, tree, a) == Staged(digest, owner, old(tree), a)
      ensures ok ==> AllBelow(tree, artifacts, owner, [])
      ensures ok ==> Holds(tree, LOCK_PATH, Placed(owner, lockBytes)) && Holds(tree, MANIFEST_PATH, Placed(owner, manifestBytes))
    {
      hide AllBelow, LaidOut, OnlyVerifiedPlaced, Staged, Troubled;
      RootLaidOut(artifacts);
      PathsDiffer();
      assert AsBefore(start, tree, LOCK_PATH) && AsBefore(start, tree, MANIFEST_PATH);
      RootIsThere(tree, Directories(artifacts));
      ok := Place(LOCK_PATH, lockBytes);
      if ok {
        AllowedPlace(old(tree), artifacts, owner, LOCK_PATH, lockBytes);
        ManifestPlaced(digest, owner, start, old(tree), tree, artifacts, LOCK_PATH, lockBytes);
        ghost var some, moved := tree, events;
        ok := Place(MANIFEST_PATH, manifestBytes);
        TroubleLater(digest, old(events), moved, events, events);
        if ok {
          AllowedPlace(some, artifacts, owner, MANIFEST_PATH, manifestBytes);
          ManifestPlaced(digest, owner, start, some, tree, artifacts, MANIFEST_PATH, manifestBytes);
        }
      }
    }

    /**
     Bring the tree to hold every artifact. However far the run gets, no
     verified file is lost and nothing unverified is placed; only artifacts
     that were missing are fetched, in order, each once. On success all of them
     were, everything pinned is there, and nothing unexpected is. And as long as
     the outside world fails nothing, a run succeeds exactly on a fit tree.
     */
    method StageArtifacts(artifacts: seq<Artifact>) returns (r: Result<nat, Error>)
      requires Rooted(tree) && DistinctPaths(artifacts)
      modifies this
      ensures Rooted(tree)
      ensures forall a <- artifacts | Staged(digest, owner, old(tree), a) :: a.path in tree && tree[a.path] == old(tree)[a.path]
      ensures OnlyVerifiedPlaced(digest, owner, old(tree), tree, artifacts)
      ensures AskedFor(old(fetched), fetched, Missing(digest, owner, old(tree), artifacts))
      ensures r.Success? ==>
                && fetched == old(fetched) + Missing(digest, owner, old(tree), artifacts)
                && r.value == |Missing(digest, owner, old(tree), artifacts)|
                && (forall a <- artifacts :: Staged(digest, owner, tree, a))
                && AllBelow(tree, artifacts, owner, [])
                && Holds(tree, LOCK_PATH, Placed(owner, lockBytes))
                && Holds(tree, MANIFEST_PATH, Placed(owner, manifestBytes))
      ensures Written(old(tree), tree, LOCK_PATH, Placed(owner, lockBytes))
      ensures Written(old(tree), tree, MANIFEST_PATH, Placed(owner, manifestBytes))
      ensures old(events) <= events
      ensures r.Success? ==> Fit(old(tree), artifacts, owner)
      ensures Fit(old(tree), artifacts, owner) && !Troubled(digest, old(events), events) ==> r.Success?
    {
      hide Fit, OnlyVerifiedPlaced, AskedFor, Missing, AllBelow, LaidOut, Kept, DirectoriesAdded, Staged, Rooted, Clear;
      hide SameDirectories, Troubled, Progress;
      ghost var start := tree;
      AskedPart(fetched, [], Missing(digest, owner, start, artifacts));
      assert fetched + [] == fetched;
      var laidOut := MakeDirectories(artifacts);
      ghost var made, layout := events, tree;
      ProgressStart(digest, owner, start, tree, artifacts);
      ManifestsAsBefore(digest, owner, start, tree, artifacts, 0);
      ProgressPlaced(digest, owner, start, tree, artifacts, 0);
      NothingVerifiedIsLost(digest, owner, start, tree, artifacts);
      FitKept(start, artifacts, owner);
      if !laidOut {
        return Failure(Unsafe);
      }
      FitLaidOut(start, layout, artifacts, owner);
      var clean := CheckTree([], artifacts);
      if !clean {
        return Failure(Unexpected);
      }
      r := ObtainAll(start, artifacts);
      ghost var obtained := events;
      NothingVerifiedIsLost(digest, owner, start, tree, artifacts);
      TroubleLater(digest, old(events), made, obtained, events);
      DirectoriesStay(layout, tree);
      if r.Success? {
        var written := WriteManifests(start, artifacts);
        NothingVerifiedIsLost(digest, owner, start, tree, artifacts);
        TroubleLater(digest, old(events), obtained, events, events);
        if !written {
          r := Failure(Interrupted);
        }
      }
    }
  }

  lemma PathsDiffer()
    ensures LOCK_PATH != MANIFEST_PATH && LOCK_PATH != [] && MANIFEST_PATH != []
    ensures Parent(LOCK_PATH) == [] && Parent(MANIFEST_PATH) == []
  {
    assert LOCK_PATH[0][0] != MANIFEST_PATH[0][0];
  }

  lemma RootIsThere(tree: Tree, directories: seq<Location>)
    requires LaidOut(tree, directories) && [] in directories
    ensures IsDirectory(tree, [])
  {
  }

  predicate Holds(tree: Tree, p: Location, e: Entry) {
    p in tree && tree[p] == e
  }

  /** Nothing is at `p` but what was there, or a new directory. */
  predicate AsBefore(before: Tree, after: Tree, p: Location) {
    p in after ==> if p in before then after[p] == before[p] else after[p].Directory?
  }

  predicate Written(before: Tree, after: Tree, p: Location, e: Entry) {
    Holds(after, p, e) || AsBefore(before, after, p)
  }

  lemma ManifestsAsBefore(digest: Bytes -> string, owner: nat, start: Tree, now: Tree, artifacts: seq<Artifact>, i: nat)
    requires i <= |artifacts| && DistinctPaths(artifacts) && Progress(digest, owner, start, now, artifacts, i)
    ensures forall p | p == LOCK_PATH || p == MANIFEST_PATH :: AsBefore(start, now, p)
  {
    forall a <- artifacts[..i] ensures a in artifacts {
    }
  }

  lemma FitKept(start: Tree, artifacts: seq<Artifact>, owner: nat)
    ensures Fit(start, artifacts, owner) <==>
            && Kept(owner, start, Directories(artifacts))
            && AllBelow(start, artifacts, owner, [])
            && (forall p | IsPlanned(artifacts, p) :: p !in Directories(artifacts) && !IsDirectory(start, p))
  {
  }

  lemma DirectoriesStay(before: Tree, after: Tree)
    requires SameDirectories(before, after)
    ensures IsDirectory(before, LOCK_PATH) == IsDirectory(after, LOCK_PATH)
    ensures IsDirectory(before, MANIFEST_PATH) == IsDirectory(after, MANIFEST_PATH)
  {
  }

  lemma TroubleLater(digest: Bytes -> string, first: seq<Event>, from: seq<Event>, to: seq<Event>, last: seq<Event>)
    requires first <= from <= to <= last
    ensures Troubled(digest, from, to) ==> Troubled(digest, first, last)
  {
    if Troubled(digest, from, to) {
      var k :| |from| <= k < |to| && Fails(digest, to[k]);
      assert last[k] == to[k];
    }
  }

  /** A verified file is only ever left as it is. */
  lemma NothingVerifiedIsLost(digest: Bytes -> string, owner: nat, start: Tree, now: Tree, artifacts: seq<Artifact>)
    requires DistinctPaths(artifacts) && OnlyVerifiedPlaced(digest, owner, start, now, artifacts)
    ensures forall a <- artifacts | Staged(digest, owner, start, a) :: a.path in now && now[a.path] == start[a.path]
  {
    forall a <- artifacts | Staged(digest, owner, start, a) ensures a.path in now && now[a.path] == start[a.path] {
      forall b <- artifacts | b.path == a.path ensures b == a {
        SamePath(artifacts, a, b);
      }
    }
  }

  /**
   After a run cut anywhere, only what is still missing is left to fetch, and
   that was missing before; after a complete run nothing is.
   */
  lemma {:induction false} RerunFetchesTheRemainder(
    digest: Bytes -> string, owner: nat, start: Tree, now: Tree, artifacts: seq<Artifact>, part: seq<Artifact>)
    requires DistinctPaths(artifacts) && OnlyVerifiedPlaced(digest, owner, start, now, artifacts)
    requires forall a <- part :: a in artifacts
    ensures forall a <- Missing(digest, owner, now, part) :: a in Missing(digest, owner, start, part)
    ensures (forall a <- part :: Staged(digest, owner, now, a)) <==> Missing(digest, owner, now, part) == []
    ensures |Missing(digest, owner, now, part)| <= |Missing(digest, owner, start, part)|
  {
    if part != [] {
      var last := part[|part| - 1];
      assert part == part[..|part| - 1] + [last];
      RerunFetchesTheRemainder(digest, owner, start, now, artifacts, part[..|part| - 1]);
      NothingVerifiedIsLost(digest, owner, start, now, artifacts);
    }
  }

  lemma SamePath(artifacts: seq<Artifact>, a: Artifact, b: Artifact)
    requires DistinctPaths(artifacts) && a in artifacts && b in artifacts && a.path == b.path
    ensures a == b
  {
    var i :| 0 <= i < |artifacts| && artifacts[i] == a;
    var j :| 0 <= j < |artifacts| && artifacts[j] == b;
  }

  lemma StagedAsAtStart(digest: Bytes -> string, owner: nat, start: Tree, now: Tree, artifacts: seq<Artifact>, i: nat)
    requires i < |artifacts| && Progress(digest, owner, start, now, artifacts, i)
    ensures Staged(digest, owner, now, artifacts[i]) == Staged(digest, owner, start, artifacts[i])
  {
    assert artifacts[i..][0] == artifacts[i];
  }

  function Placed(owner: nat, bytes: Bytes): Entry {
    RegularFile(owner, FILE_MODE, bytes)
  }

  // ---- Directories -----------------------------------------------------------------

  ghost predicate LaidOut(tree: Tree, directories: seq<Location>) {
    forall d <- directories :: d in tree && tree[d].Directory?
  }

  ghost predicate DirectoriesAdded(owner: nat, directories: seq<Location>, before: Tree, after: Tree) {
    && (forall p <- before :: p in after && after[p] == before[p])
    && (forall p <- after :: p in before || (p in directories && after[p].Directory? && Controlled(after[p], owner)))
  }

  /** The directories of the layout that are there already are good ones. */
  ghost predicate Kept(owner: nat, tree: Tree, directories: seq<Location>) {
    forall d <- directories | d in tree :: tree[d].Directory? && Controlled(tree[d], owner)
  }

  lemma KeptNext(owner: nat, start: Tree, before: Tree, directories: seq<Location>, i: nat)
    requires i < |directories| && DirectoriesAdded(owner, directories, start, before)
    ensures var d := directories[i];
            Kept(owner, start, directories[..i + 1]) <==>
            Kept(owner, start, directories[..i])
            && (d in before ==> before[d].Directory? && Controlled(before[d], owner))
    ensures Kept(owner, start, directories) ==> Kept(owner, start, directories[..i + 1])
  {
    assert directories[..i + 1] == directories[..i] + [directories[i]];
    forall d <- directories[..i + 1] ensures d in directories {
    }
  }

  /** The directories are listed parents first. */
  lemma {:induction false} ParentsFirst(artifacts: seq<Artifact>, i: nat)
    requires i < |Directories(artifacts)|
    ensures var directories := Directories(artifacts);
            directories[i] == [] || Parent(directories[i]) in directories[..i]
  {
    var directories := Directories(artifacts);
    if artifacts != [] {
      var before := Directories(artifacts[..|artifacts| - 1]);
      if i < |before| {
        ParentsFirst(artifacts[..|artifacts| - 1], i);
        assert directories[..i] == before[..i];
      } else {
        var p := artifacts[|artifacts| - 1].path;
        AncestorsLength(p);
        AncestorsAt(p, i - |before|);
        if i > |before| {
          var k := i - |before|;
          AncestorsAt(p, k - 1);
          assert Parent(p[..k]) == p[..k - 1];
          assert directories[..i][i - 1] == directories[i - 1];
        }
      }
    } else if i > 0 {
      assert directories[..i][0] == [];
    }
  }

  lemma {:induction false} AncestorsAt(p: Location, k: nat)
    requires k < |p|
    ensures |Ancestors(p)| == |p| && Ancestors(p)[k] == p[..k]
    decreases |p|
  {
    AncestorsLength(p);
    AncestorsLength(Parent(p));
    if k < |p| - 1 {
      AncestorsAt(Parent(p), k);
      assert Parent(p)[..k] == p[..k];
    }
  }

  lemma {:induction false} AncestorsLength(p: Location)
    ensures |Ancestors(p)| == |p|
  {
    if p != [] {
      AncestorsLength(Parent(p));
    }
  }

  /** The layout has a directory exactly at the root, for wheels and models, and above every artifact. */
  lemma {:induction false} DirectoriesExactly(artifacts: seq<Artifact>, p: Location)
    ensures p in Directories(artifacts) <==>
            p == [] || p == ["wheels"] || p == ["models"] || exists a <- artifacts :: p < a.path
  {
    if artifacts != [] {
      var last := |artifacts| - 1;
      DirectoriesExactly(artifacts[..last], p);
      assert artifacts == artifacts[..last] + [artifacts[last]];
      AncestorsExactly(artifacts[last].path, p);
    }
  }

  lemma AncestorsExactly(at: Location, p: Location)
    ensures p in Ancestors(at) <==> p < at
  {
    AncestorsLength(at);
    if p < at {
      AncestorsAt(at, |p|);
      assert at[..|p|] == p;
    }
    if p in Ancestors(at) {
      var k :| 0 <= k < |Ancestors(at)| && Ancestors(at)[k] == p;
      AncestorsAt(at, k);
    }
  }

  /**
   The permissions: controlled is what only its owner can write. New directories
   and files are like that, and everybody may read them.
   */
  lemma ModeBits(e: Entry, owner: nat, bytes: Bytes)
    ensures Controlled(e, owner) <==> e.owner == owner && (e.mode >> 4) & 1 == 0 && (e.mode >> 1) & 1 == 0
    ensures Controlled(Placed(owner, bytes), owner) && Controlled(Directory(owner, DIRECTORY_MODE), owner)
    ensures (DIRECTORY_MODE >> 6) & 7 == 7 && (DIRECTORY_MODE >> 3) & 7 == DIRECTORY_MODE & 7 == 5
    ensures (FILE_MODE >> 6) & 7 == 6 && (FILE_MODE >> 3) & 7 == FILE_MODE & 7 == 4
  {
  }

  lemma MadeControlled(owner: nat)
    ensures Controlled(Directory(owner, DIRECTORY_MODE), owner)
  {
  }

  /** A directory as it is made, before and after its permissions are set. */
  function NewDirectory(owner: nat, permitted: bool, mask: bv16): (e: Entry)
    ensures e.Directory? && Controlled(e, owner)
    ensures permitted ==> e == Directory(owner, DIRECTORY_MODE)
  {
    Directory(owner, if permitted then DIRECTORY_MODE else DIRECTORY_MODE & mask)
  }

  /**
   Once the layout is there, the tree was fit exactly when nothing in it is
   unexpected or unsafe and no file is to go where a directory is.
   */
  lemma FitLaidOut(start: Tree, now: Tree, artifacts: seq<Artifact>, owner: nat)
    requires DirectoriesAdded(owner, Directories(artifacts), start, now)
    requires LaidOut(now, Directories(artifacts)) && Kept(owner, start, Directories(artifacts))
    ensures AllBelow(start, artifacts, owner, []) <==> AllBelow(now, artifacts, owner, [])
    ensures (forall p | IsPlanned(artifacts, p) :: p !in Directories(artifacts) && !IsDirectory(start, p)) <==>
            Clear(now, artifacts) && !IsDirectory(now, LOCK_PATH) && !IsDirectory(now, MANIFEST_PATH)
  {
    forall p ensures IsDirectory(now, p) <==> p in Directories(artifacts) || IsDirectory(start, p) {
    }
    if AllBelow(start, artifacts, owner, []) {
      forall p <- now | Below([], p) ensures Allowed(now, artifacts, owner, p) {
        assert p in start ==> Allowed(start, artifacts, owner, p);
      }
    }
    if AllBelow(now, artifacts, owner, []) {
      forall p <- start | Below([], p) ensures Allowed(start, artifacts, owner, p) {
        assert Allowed(now, artifacts, owner, p);
      }
    }
    assert IsPlanned(artifacts, LOCK_PATH) && IsPlanned(artifacts, MANIFEST_PATH);
    forall a <- artifacts ensures IsPlanned(artifacts, a.path) {
    }
  }

  /** No artifact is to go where a directory is. */
  ghost predicate Clear(tree: Tree, artifacts: seq<Artifact>) {
    forall a <- artifacts :: !IsDirectory(tree, a.path)
  }

  lemma NoMoreDirectories(start: Tree, now: Tree, artifacts: seq<Artifact>, i: nat)
    requires i <= |artifacts|
    ensures SameDirectories(start, start) && Clear(start, artifacts[..0])
    ensures i < |artifacts| && SameDirectories(start, now) && Clear(start, artifacts[..i]) ==>
              (Clear(start, artifacts[..i + 1]) <==> !IsDirectory(now, artifacts[i].path))
    ensures Clear(start, artifacts) && i < |artifacts| ==> Clear(start, artifacts[..i + 1])
  {
    if i < |artifacts| {
      assert artifacts[..i + 1] == artifacts[..i] + [artifacts[i]];
      forall a <- artifacts[..i + 1] ensures a in artifacts {
      }
    }
  }

  lemma NoneMissing(digest: Bytes -> string, owner: nat, tree: Tree, artifacts: seq<Artifact>)
    ensures Missing(digest, owner, tree, artifacts[..0]) == []
  {
  }

  /** Where an artifact goes there is a directory above it, and what is there already is safe. */
  lemma ReadyFor(tree: Tree, artifacts: seq<Artifact>, owner: nat, i: nat)
    requires i < |artifacts| && DistinctPaths(artifacts)
    requires LaidOut(tree, Directories(artifacts)) && AllBelow(tree, artifacts, owner, [])
    ensures artifacts[i].path != [] && IsDirectory(tree, Parent(artifacts[i].path))
    ensures IsExpected(artifacts, artifacts[i].path)
    ensures artifacts[i].path in tree ==> Safe(tree[artifacts[i].path], owner)
  {
    ParentLaidOut(artifacts, i);
    assert artifacts[i].path in tree ==> Allowed(tree, artifacts, owner, artifacts[i].path);
  }

  lemma FilePlaced(tree: Tree, p: Location, e: Entry)
    requires !IsDirectory(tree, p) && e.RegularFile?
    ensures SameDirectories(tree, tree[p := e])
  {
  }

  lemma StillSameDirectories(a: Tree, b: Tree, c: Tree)
    ensures SameDirectories(a, a)
    ensures SameDirectories(a, b) && SameDirectories(b, c) ==> SameDirectories(a, c)
  {
  }

  lemma AllStaged(digest: Bytes -> string, owner: nat, start: Tree, now: Tree, artifacts: seq<Artifact>)
    requires Progress(digest, owner, start, now, artifacts, |artifacts|)
    ensures forall a <- artifacts :: Staged(digest, owner, now, a)
  {
    assert artifacts[..|artifacts|] == artifacts;
  }

  ghost predicate SameDirectories(before: Tree, after: Tree) {
    forall p :: IsDirectory(before, p) <==> IsDirectory(after, p)
  }

  lemma LaidOutNext(before: Tree, after: Tree, directories: seq<Location>, i: nat)
    requires i < |directories|
    ensures LaidOut(before, directories[..i]) && (forall p <- before :: p in after && after[p] == before[p])
            && directories[i] in after && after[directories[i]].Directory?
            ==> LaidOut(after, directories[..i + 1])
  {
    assert directories[..i + 1] == directories[..i] + [directories[i]];
  }

  lemma {:induction false} ParentLaidOut(artifacts: seq<Artifact>, i: nat)
    requires i < |artifacts|
    ensures artifacts[i].path != [] ==> Parent(artifacts[i].path) in Directories(artifacts)
  {
    if i < |artifacts| - 1 {
      ParentLaidOut(artifacts[..|artifacts| - 1], i);
    }
  }

  lemma {:induction false} RootLaidOut(artifacts: seq<Artifact>)
    ensures [] in Directories(artifacts)
  {
    if artifacts != [] {
      RootLaidOut(artifacts[..|artifacts| - 1]);
    }
  }

  // ---- Progress through the artifacts ------------------------------------------------

  lemma MissingNext(digest: Bytes -> string, owner: nat, tree: Tree, artifacts: seq<Artifact>, i: nat)
    requires i < |artifacts|
    ensures Missing(digest, owner, tree, artifacts[..i + 1]) ==
            Missing(digest, owner, tree, artifacts[..i]) +
            if Staged(digest, owner, tree, artifacts[i]) then [] else [artifacts[i]]
  {
    assert artifacts[..i + 1][..i] == artifacts[..i];
    var rest := Missing(digest, owner, tree, artifacts[..i]);
    assert rest + [] == rest;
  }

  lemma {:induction false} MissingPrefix(digest: Bytes -> string, owner: nat, tree: Tree, artifacts: seq<Artifact>, i: nat)
    requires i <= |artifacts|
    ensures Missing(digest, owner, tree, artifacts[..i]) <= Missing(digest, owner, tree, artifacts)
  {
    if i < |artifacts| {
      var before := artifacts[..|artifacts| - 1];
      MissingPrefix(digest, owner, tree, before, i);
      assert before[..i] == artifacts[..i];
    } else {
      assert artifacts[..i] == artifacts;
    }
  }

  /** What was asked for since `before` is the beginning of `wanted`. */
  ghost predicate AskedFor(before: seq<Artifact>, after: seq<Artifact>, wanted: seq<Artifact>) {
    exists n :: 0 <= n <= |wanted| && after == before + wanted[..n]
  }

  lemma AskedPart(before: seq<Artifact>, part: seq<Artifact>, wanted: seq<Artifact>)
    requires part <= wanted
    ensures AskedFor(before, before + part, wanted)
  {
    assert before + part == before + wanted[..|part|];
  }

  /** Before and after turn `i` of the loop, with or without its download. */
  lemma AskedSoFar(digest: Bytes -> string, owner: nat, tree: Tree, artifacts: seq<Artifact>, i: nat,
                   before: seq<Artifact>, after: seq<Artifact>)
    requires i < |artifacts| && after == before + Missing(digest, owner, tree, artifacts[..i])
    ensures AskedFor(before, after, Missing(digest, owner, tree, artifacts))
    ensures !Staged(digest, owner, tree, artifacts[i]) ==>
              AskedFor(before, after + [artifacts[i]], Missing(digest, owner, tree, artifacts))
    ensures before + Missing(digest, owner, tree, artifacts[..i + 1]) ==
            after + if Staged(digest, owner, tree, artifacts[i]) then [] else [artifacts[i]]
    ensures |Missing(digest, owner, tree, artifacts[..i + 1])| ==
            |Missing(digest, owner, tree, artifacts[..i])| + if Staged(digest, owner, tree, artifacts[i]) then 0 else 1
  {
    MissingNext(digest, owner, tree, artifacts, i);
    MissingPrefix(digest, owner, tree, artifacts, i);
    MissingPrefix(digest, owner, tree, artifacts, i + 1);
    AskedPart(before, Missing(digest, owner, tree, artifacts[..i]), Missing(digest, owner, tree, artifacts));
    AskedPart(before, Missing(digest, owner, tree, artifacts[..i + 1]), Missing(digest, owner, tree, artifacts));
  }

  /** The first `i` artifacts are staged; the rest are as they were. */
  ghost predicate Progress(digest: Bytes -> string, owner: nat, start: Tree, now: Tree, artifacts: seq<Artifact>, i: nat)
    requires i <= |artifacts|
  {
    && (forall p <- start :: p in now)
    && (forall a <- artifacts[..i] :: Staged(digest, owner, now, a))
    && (forall a <- artifacts | Staged(digest, owner, start, a) :: a.path in now && now[a.path] == start[a.path])
    && (forall a <- artifacts[i..] :: Staged(digest, owner, now, a) == Staged(digest, owner, start, a))
    && Accounted(digest, owner, start, now, artifacts, i)
  }

  /** What is new is a directory of the layout, or one of the first `i` artifacts. */
  ghost predicate Accounted(digest: Bytes -> string, owner: nat, start: Tree, now: Tree, artifacts: seq<Artifact>, i: nat)
    requires i <= |artifacts|
  {
    forall p <- now ::
      || (p in start && now[p] == start[p])
      || (p !in start && p in Directories(artifacts) && now[p].Directory? && Controlled(now[p], owner))
      || (now[p].mode == FILE_MODE && exists a <- artifacts[..i] :: a.path == p && !Staged(digest, owner, start, a))
  }

  lemma AccountedPlace(digest: Bytes -> string, owner: nat, start: Tree, now: Tree, artifacts: seq<Artifact>, i: nat, bytes: Bytes)
    requires i < |artifacts| && Accounted(digest, owner, start, now, artifacts, i)
    requires !Staged(digest, owner, start, artifacts[i])
    ensures Accounted(digest, owner, start, now[artifacts[i].path := Placed(owner, bytes)], artifacts, i + 1)
  {
    hide Staged, Controlled;
    assert artifacts[..i + 1] == artifacts[..i] + [artifacts[i]];
  }

  lemma ProgressStart(digest: Bytes -> string, owner: nat, start: Tree, now: Tree, artifacts: seq<Artifact>)
    requires DirectoriesAdded(owner, Directories(artifacts), start, now)
    ensures Progress(digest, owner, start, now, artifacts, 0)
  {
  }

  lemma ProgressPlaced(digest: Bytes -> string, owner: nat, start: Tree, now: Tree, artifacts: seq<Artifact>, i: nat)
    requires i <= |artifacts| && Progress(digest, owner, start, now, artifacts, i)
    ensures OnlyVerifiedPlaced(digest, owner, start, now, artifacts)
  {
    forall a <- artifacts[..i] ensures a in artifacts {
    }
  }

  lemma ProgressSkip(digest: Bytes -> string, owner: nat, start: Tree, now: Tree, artifacts: seq<Artifact>, i: nat)
    requires i < |artifacts| && Progress(digest, owner, start, now, artifacts, i)
    requires Staged(digest, owner, now, artifacts[i])
    ensures Staged(digest, owner, start, artifacts[i])
    ensures Progress(digest, owner, start, now, artifacts, i + 1)
  {
    assert artifacts[..i + 1] == artifacts[..i] + [artifacts[i]];
    assert artifacts[i..] == [artifacts[i]] + artifacts[i + 1..];
  }

  /** Placing an artifact leaves every other one as it is. */
  lemma OtherArtifactsStay(digest: Bytes -> string, owner: nat, now: Tree, artifacts: seq<Artifact>, i: nat, e: Entry, b: Artifact)
    requires i < |artifacts| && DistinctPaths(artifacts) && b in artifacts
    ensures b != artifacts[i] ==> Staged(digest, owner, now[artifacts[i].path := e], b) == Staged(digest, owner, now, b)
    ensures b in artifacts[..i] || b in artifacts[i + 1..] ==> b != artifacts[i]
  {
    if b.path == artifacts[i].path {
      SamePath(artifacts, artifacts[i], b);
    }
  }

  lemma ProgressPlace(digest: Bytes -> string, owner: nat, start: Tree, now: Tree, artifacts: seq<Artifact>, i: nat, bytes: Bytes)
    requires i < |artifacts| && Progress(digest, owner, start, now, artifacts, i) && DistinctPaths(artifacts)
    requires !Staged(digest, owner, now, artifacts[i]) && Matches(digest, artifacts[i], bytes)
    ensures Progress(digest, owner, start, now[artifacts[i].path := Placed(owner, bytes)], artifacts, i + 1)
    ensures !Staged(digest, owner, start, artifacts[i])
  {
    var a := artifacts[i];
    var after := now[a.path := Placed(owner, bytes)];
    assert artifacts[..i + 1] == artifacts[..i] + [a];
    assert artifacts[i..] == [a] + artifacts[i + 1..];
    StagedAsAtStart(digest, owner, start, now, artifacts, i);
    assert Staged(digest, owner, after, a);
    AccountedPlace(digest, owner, start, now, artifacts, i, bytes);
    hide DistinctPaths, Staged, Matches, Accounted;
    forall b <- artifacts[..i] ensures Staged(digest, owner, after, b) {
      OtherArtifactsStay(digest, owner, now, artifacts, i, Placed(owner, bytes), b);
    }
    forall b <- artifacts[i + 1..] ensures Staged(digest, owner, after, b) == Staged(digest, owner, start, b) {
      OtherArtifactsStay(digest, owner, now, artifacts, i, Placed(owner, bytes), b);
    }
    forall b <- artifacts | Staged(digest, owner, start, b) ensures b.path != a.path {
      SamePathIsSame(artifacts, a, b);
    }
  }

  lemma SamePathIsSame(artifacts: seq<Artifact>, a: Artifact, b: Artifact)
    requires DistinctPaths(artifacts) && a in artifacts && b in artifacts
    ensures a.path == b.path ==> a == b
  {
    if a.path == b.path {
      SamePath(artifacts, a, b);
    }
  }

  lemma AllowedPlace(tree: Tree, artifacts: seq<Artifact>, owner: nat, p: Location, bytes: Bytes)
    requires AllBelow(tree, artifacts, owner, []) && IsExpected(artifacts, p)
    requires LaidOut(tree, Directories(artifacts)) && (p in tree ==> !tree[p].Directory?)
    ensures AllBelow(tree[p := Placed(owner, bytes)], artifacts, owner, [])
    ensures LaidOut(tree[p := Placed(owner, bytes)], Directories(artifacts))
  {
    var after := tree[p := Placed(owner, bytes)];
    forall q <- after | Below([], q) ensures Allowed(after, artifacts, owner, q) {
      assert q != p ==> Allowed(tree, artifacts, owner, q);
    }
  }

  /** Writing a manifest disturbs no artifact. */
  lemma ManifestPlaced(digest: Bytes -> string, owner: nat, start: Tree, before: Tree, after: Tree,
                       artifacts: seq<Artifact>, p: Location, bytes: Bytes)
    requires OnlyVerifiedPlaced(digest, owner, start, before, artifacts) && DistinctPaths(artifacts)
    requires p == LOCK_PATH || p == MANIFEST_PATH
    requires after == before[p := Placed(owner, bytes)]
    ensures OnlyVerifiedPlaced(digest, owner, start, after, artifacts)
    ensures forall a <- artifacts :: Staged(digest, owner, after, a) == Staged(digest, owner, before, a)
  {
  }

  lemma FewerBelow(tree: Tree, at: Location, child: Location)
    requires child in tree && Below(at, child)
    ensures |set p | p in tree && Below(child, p)| < |set p | p in tree && Below(at, p)|
  {
    var inner, outer := set p | p in tree && Below(child, p), set p | p in tree && Below(at, p);
    forall p <- inner ensures p in outer {
      assert at <= child <= p;
    }
    assert child in outer && child !in inner;
    StrictSubset(inner, outer);
  }

  lemma StrictSubset<T>(a: set<T>, b: set<T>)
    requires a < b
    ensures |a| < |b|
  {
    var rest := b - a;
    assert b == a + rest && rest != {};
  }

  predicate Allowed(tree: Tree, artifacts: seq<Artifact>, owner: nat, p: Location)
    requires p in tree
  {
    IsExpected(artifacts, p) && Safe(tree[p], owner)
  }

  ghost predicate AllBelow(tree: Tree, artifacts: seq<Artifact>, owner: nat, at: Location) {
    forall p <- tree | Below(at, p) :: Allowed(tree, artifacts, owner, p)
  }

  function Children(tree: Tree, at: Location): set<Location> {
    set p | p in tree && Below(at, p) && |p| == |at| + 1
  }

  ghost predicate ChildPasses(tree: Tree, artifacts: seq<Artifact>, owner: nat, child: Location)
    requires child in tree
  {
    Allowed(tree, artifacts, owner, child) && (tree[child].Directory? ==> AllBelow(tree, artifacts, owner, child))
  }

  ghost predicate AllPass(tree: Tree, artifacts: seq<Artifact>, owner: nat, children: set<Location>)
    requires children <= tree.Keys
  {
    forall c <- children :: ChildPasses(tree, artifacts, owner, c)
  }

  lemma PassOneMore(tree: Tree, artifacts: seq<Artifact>, owner: nat, done: set<Location>, child: Location)
    requires done <= tree.Keys && child in tree
    ensures AllPass(tree, artifacts, owner, done + {child}) <==>
            AllPass(tree, artifacts, owner, done) && ChildPasses(tree, artifacts, owner, child)
  {
  }

  /** Everything below `at` is a child of it, or below a child that is a directory. */
  lemma ThroughAChild(tree: Tree, at: Location, p: Location)
    requires Rooted(tree) && p in tree && Below(at, p)
    ensures var child := p[..|at| + 1];
            child in Children(tree, at) && (p == child || (tree[child].Directory? && Below(child, p)))
  {
    var child := p[..|at| + 1];
    assert child[..|at|] == p[..|at|] == at;
    if |p| > |at| + 1 {
      AncestorIsDirectory(tree, p, |at| + 1);
    } else {
      assert child == p;
    }
  }

  lemma ChildrenDecide(tree: Tree, artifacts: seq<Artifact>, owner: nat, at: Location)
    requires Rooted(tree)
    ensures AllPass(tree, artifacts, owner, Children(tree, at)) <==> AllBelow(tree, artifacts, owner, at)
  {
    if AllPass(tree, artifacts, owner, Children(tree, at)) {
      forall p <- tree | Below(at, p) ensures Allowed(tree, artifacts, owner, p) {
        ThroughAChild(tree, at, p);
        assert ChildPasses(tree, artifacts, owner, p[..|at| + 1]);
      }
    }
    if AllBelow(tree, artifacts, owner, at) {
      forall c <- Children(tree, at) ensures ChildPasses(tree, artifacts, owner, c) {
        forall p <- tree | Below(c, p) ensures Allowed(tree, artifacts, owner, p) {
          assert at <= c <= p;
        }
      }
    }
  }

  lemma {:induction false} AncestorIsDirectory(tree: Tree, p: Location, k: nat)
    requires Rooted(tree) && p in tree && k < |p|
    ensures p[..k] in tree && tree[p[..k]].Directory?
    decreases |p|
  {
    if k < |p| - 1 {
      AncestorIsDirectory(tree, Parent(p), k);
      assert Parent(p)[..k] == p[..k];
    }
  }
}
