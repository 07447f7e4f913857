/**
 The trusted-executable resolver of `crates/admin/src/ai_accounts.rs`.

 `Walk` is the resolver's own loop: a stack of pending components, a
 link-free prefix resolved so far and a count of the symlinks followed.
 `Open` is an independent, nested reading of the same walk: a symlink in the
 middle of a path is resolved to a directory before the rest of the path is
 looked at. The two are proved to agree on every tree and path, cyclic links
 included.
 */
module TrustedPath {
  import opened Wrappers
  import opened Shared

  /** A parsed path: the components of `std::path::Path`. */
  datatype Component = RootDir | CurDir | ParentDir | Normal(name: string)
  type Path = seq<Component>

  /** A pending component; `Up` is the pushed "..". */
  datatype Part = Up | Down(name: string)

  /** What `symlink_metadata` (and `read_link`) report for one location. */
  datatype Node =
    | Link(owner: nat, target: Path)
    | Directory(owner: nat, mode: bv16)
    | Regular(owner: nat, mode: bv16)
    | Special(owner: nat, mode: bv16)

  type Tree = map<Location, Node>

  datatype Refusal =
    | NotAbsolute
    | UnsafeDirectory
    | Missing
    | TooManyLinks
    | UnsafeLink
    | UnsafeFile
    | NotAFile

  const SYSTEM_LINK_HOPS: nat := 8

  predicate IsAbsolute(path: Path) {
    path != [] && path[0].RootDir?
  }

  /** The components a walk acts on, first one first. */
  function Parts(path: Path): seq<Part> {
    if path == [] then []
    else match path[0]
         case Normal(name) => [Down(name)] + Parts(path[1..])
         case ParentDir => [Up] + Parts(path[1..])
         case _ => Parts(path[1..])
  }

  // ---- Who may have changed a node -----------------------------------------

  /**
   Whose control a walk insists on: one owner's (the resolver), or nobody's
   (the kernel, when the original path is executed).
   */
  datatype Policy = Unchecked | OwnedBy(owner: nat) {
    predicate Owns(node: Node) {
      Unchecked? || node.owner == owner
    }

    /** Owned, and without group or other write permission (0o022). */
    predicate Trusts(node: Node)
      requires !node.Link?
    {
      Unchecked? || (node.owner == owner && node.mode & 0x12 == 0)
    }

    predicate TrustsDirectory(tree: Tree, at: Location) {
      at in tree && tree[at].Directory? && Trusts(tree[at])
    }

    /** A trusted regular file with some execute permission (0o111). */
    predicate TrustsExecutable(tree: Tree, at: Location) {
      at in tree && tree[at].Regular? && Trusts(tree[at]) && tree[at].mode & 0x49 != 0
    }
  }

  // ---- The reference walk ---------------------------------------------------

  /** A directory reached, and how many more symlinks may be followed. */
  datatype Place = Place(dir: Location, hops: nat)

  /** Follow the symlink `node`, found in `from.dir`. */
  function FollowFrom(policy: Policy, from: Place, node: Node): Result<Place, Refusal>
    requires node.Link?
  {
    if from.hops == 0 then Failure(TooManyLinks)
    else if !policy.Owns(node) then Failure(UnsafeLink)
    else Success(Place(if IsAbsolute(node.target) then [] else from.dir, from.hops - 1))
  }

  /** Enter one component as a directory. */
  function Enter(tree: Tree, policy: Policy, from: Place, part: Part): (r: Result<Place, Refusal>)
    ensures r.Success? ==> r.value.hops <= from.hops
    decreases from.hops, 0
  {
    match part
    case Up => Success(from.(dir := Parent(from.dir)))
    case Down(name) =>
      var at := from.dir + [name];
      if at !in tree then Failure(Missing)
      else if tree[at].Link? then
        var start :- FollowFrom(policy, from, tree[at]);
        EnterAll(tree, policy, start, Parts(tree[at].target))
      else if policy.TrustsDirectory(tree, at) then Success(from.(dir := at))
      else Failure(UnsafeDirectory)
  }

  /** Enter a list of components, one after the other. */
  function EnterAll(tree: Tree, policy: Policy, from: Place, parts: seq<Part>): (r: Result<Place, Refusal>)
    ensures r.Success? ==> r.value.hops <= from.hops
    decreases from.hops, 1 + |parts|
  {
    if parts == [] then Success(from)
    else
      var next :- Enter(tree, policy, from, parts[0]);
      EnterAll(tree, policy, next, parts[1..])
  }

  /** Find the executable that `parts` name when read from `from`. */
  function Open(tree: Tree, policy: Policy, from: Place, parts: seq<Part>): (r: Result<Location, Refusal>)
    decreases from.hops
  {
    if parts == [] then Failure(NotAFile)
    else
      var last := |parts| - 1;
      var place :- EnterAll(tree, policy, from, parts[..last]);
      match parts[last]
      case Up => Failure(NotAFile)
      case Down(name) =>
        var at := place.dir + [name];
        if at !in tree then Failure(Missing)
        else if tree[at].Link? then
          var start :- FollowFrom(policy, place, tree[at]);
          Open(tree, policy, start, Parts(tree[at].target))
        else if policy.TrustsExecutable(tree, at) then Success(at)
        else Failure(UnsafeFile)
  }

  /** Continue a walk with `parts`, or keep its refusal. */
  function OpenAfter(tree: Tree, policy: Policy, so: Result<Place, Refusal>, parts: seq<Part>): Result<Location, Refusal> {
    if so.Failure? then Failure(so.error) else Open(tree, policy, so.value, parts)
  }

  /** The whole check of an absolute path, root directory first. */
  function Checked(tree: Tree, policy: Policy, path: Path, maxHops: nat): Result<Location, Refusal> {
    if !IsAbsolute(path) then Failure(NotAbsolute)
    else if !policy.TrustsDirectory(tree, []) then Failure(UnsafeDirectory)
    else Open(tree, policy, Place([], maxHops), Parts(path))
  }

  // ---- One component at a time ----------------------------------------------

  lemma {:induction false} EnterAllAppend(tree: Tree, policy: Policy, from: Place, a: seq<Part>, b: seq<Part>)
    ensures EnterAll(tree, policy, from, a + b) ==
            var mid := EnterAll(tree, policy, from, a);
            if mid.Failure? then mid else EnterAll(tree, policy, mid.value, b)
    decreases |a|
  {
    if a == [] {
      assert a + b == b;
    } else {
      assert (a + b)[0] == a[0] && (a + b)[1..] == a[1..] + b;
      match Enter(tree, policy, from, a[0]) {
        case Success(next) => EnterAllAppend(tree, policy, next, a[1..], b);
        case Failure(_) =>
      }
    }
  }

  /** Opening `a + b` is entering `a` and opening `b` from there. */
  lemma OpenAppend(tree: Tree, policy: Policy, from: Place, a: seq<Part>, b: seq<Part>)
    requires b != []
    ensures Open(tree, policy, from, a + b) ==
            OpenAfter(tree, policy, EnterAll(tree, policy, from, a), b)
  {
    var last := |b| - 1;
    assert (a + b)[..|a + b| - 1] == a + b[..last];
    EnterAllAppend(tree, policy, from, a, b[..last]);
  }

  /** One turn of the loop: the first pending component is read in place. */
  lemma OpenStep(tree: Tree, policy: Policy, from: Place, part: Part, rest: seq<Part>)
    ensures part.Up? && rest == [] ==> Open(tree, policy, from, [part] + rest) == Failure(NotAFile)
    ensures part.Up? && rest != [] ==>
              Open(tree, policy, from, [part] + rest) == Open(tree, policy, from.(dir := Parent(from.dir)), rest)
    ensures part.Down? ==>
              var at := from.dir + [part.name];
              Open(tree, policy, from, [part] + rest) ==
              if at !in tree then Failure(Missing)
              else if tree[at].Link? then
                OpenAfter(tree, policy, FollowFrom(policy, from, tree[at]), Parts(tree[at].target) + rest)
              else if rest == [] then
                if policy.TrustsExecutable(tree, at) then Success(at) else Failure(UnsafeFile)
              else if policy.TrustsDirectory(tree, at) then Open(tree, policy, from.(dir := at), rest)
              else Failure(UnsafeDirectory)
  {
    if rest == [] {
      assert [part] + rest == [part] && [part][..0] == [];
      if part.Down? && from.dir + [part.name] in tree && tree[from.dir + [part.name]].Link? {
        var target := Parts(tree[from.dir + [part.name]].target);
        assert target + rest == target;
      }
    } else {
      OpenAppend(tree, policy, from, [part], rest);
      assert [part][1..] == [];
      if part.Down? && from.dir + [part.name] in tree && tree[from.dir + [part.name]].Link? {
        var node := tree[from.dir + [part.name]];
        match FollowFrom(policy, from, node) {
          case Failure(_) =>
          case Success(start) => OpenAppend(tree, policy, start, Parts(node.target), rest);
        }
      }
    }
  }

  lemma NothingToOpen(tree: Tree, policy: Policy, from: Place)
    ensures Open(tree, policy, from, Reverse([])) == Failure(NotAFile)
  {
  }

  // ---- The resolver -----------------------------------------------------------

  function Reverse(s: seq<Part>): (r: seq<Part>)
    ensures |r| == |s|
  {
    if s == [] then [] else Reverse(s[1..]) + [s[0]]
  }

  lemma {:induction false} ReverseAppend(a: seq<Part>, b: seq<Part>)
    ensures Reverse(a + b) == Reverse(b) + Reverse(a)
  {
    if a == [] {
      assert a + b == b;
    } else {
      assert (a + b)[1..] == a[1..] + b;
      ReverseAppend(a[1..], b);
    }
  }

  lemma {:induction false} ReverseTwice(s: seq<Part>)
    ensures Reverse(Reverse(s)) == s
  {
    if s != [] {
      ReverseAppend(Reverse(s[1..]), [s[0]]);
      ReverseTwice(s[1..]);
      assert Reverse([s[0]]) == [s[0]];
    }
  }

  lemma ReverseOne(part: Part)
    ensures Reverse([part]) == [part]
  {
  }

  /** The top of the stack is the next component. */
  lemma PopNext(pending: seq<Part>)
    requires pending != []
    ensures Reverse(pending) == [pending[|pending| - 1]] + Reverse(pending[..|pending| - 1])
  {
    hide Reverse;
    var below, top := pending[..|pending| - 1], pending[|pending| - 1];
    assert pending == below + [top];
    ReverseAppend(below, [top]);
    ReverseOne(top);
  }

  lemma PushNext(pending: seq<Part>, part: Part)
    ensures Reverse(pending + [part]) == [part] + Reverse(pending)
  {
    hide Reverse;
    ReverseAppend(pending, [part]);
    ReverseOne(part);
  }

  /** The components a walk acts on, from the `i`-th on. */
  lemma PartsNext(path: Path, i: nat)
    requires i < |path|
    ensures path[i].Normal? ==> Parts(path[i..]) == [Down(path[i].name)] + Parts(path[i + 1..])
    ensures path[i].ParentDir? ==> Parts(path[i..]) == [Up] + Parts(path[i + 1..])
    ensures path[i].RootDir? || path[i].CurDir? ==> Parts(path[i..]) == Parts(path[i + 1..])
  {
    assert path[i..][1..] == path[i + 1..];
  }

  lemma NoParts(pending: seq<Part>)
    ensures Parts([]) + pending == pending
  {
  }

  /** Push a path's components so that the first one is popped first. */
  method PushComponents(pending: seq<Part>, path: Path) returns (pushed: seq<Part>)
    ensures Reverse(pushed) == Parts(path) + Reverse(pending)
  {
    hide Reverse, Parts;
    pushed := pending;
    var i := |path|;
    assert path[i..] == [];
    NoParts(Reverse(pending));
    while i > 0
      invariant 0 <= i <= |path|
      invariant Reverse(pushed) == Parts(path[i..]) + Reverse(pending)
    {
      i := i - 1;
      PartsNext(path, i);
      match path[i] {
        case Normal(name) =>
          PushNext(pushed, Down(name));
          pushed := pushed + [Down(name)];
        case ParentDir =>
          PushNext(pushed, Up);
          pushed := pushed + [Up];
        case RootDir =>
        case CurDir =>
      }
    }
    assert path[0..] == path;
  }

  /**
   The resolver's loop. `stack` holds the pending components, the last of
   which comes next. The loop ends on every tree: each turn spends a hop or a
   component.
   */
  method Walk(tree: Tree, stack: seq<Part>, owner: nat, maxHops: nat) returns (r: Result<Location, Refusal>)
    ensures r == Open(tree, OwnedBy(owner), Place([], maxHops), Reverse(stack))
  {
    hide Open, Reverse;
    var policy := OwnedBy(owner);
    var pending := stack;
    var resolved: Location := [];
    var hops := 0;
    ghost var answer := Open(tree, policy, Place([], maxHops), Reverse(stack));
    while pending != []
      invariant hops <= maxHops
      invariant answer == Open(tree, policy, Place(resolved, maxHops - hops), Reverse(pending))
      decreases maxHops - hops, |pending|
    {
      ghost var place := Place(resolved, maxHops - hops);
      var part := pending[|pending| - 1];
      PopNext(pending);
      pending := pending[..|pending| - 1];
      OpenStep(tree, policy, place, part, Reverse(pending));
      if part.Up? {
        resolved := Parent(resolved);
        NothingToOpen(tree, policy, Place(resolved, maxHops - hops));
        continue;
      }
      var candidate := resolved + [part.name];
      if candidate !in tree {
        return Failure(Missing);
      }
      var node := tree[candidate];
      if node.Link? {
        hops := hops + 1;
        if hops > maxHops {
          return Failure(TooManyLinks);
        }
        if node.owner != owner {
          return Failure(UnsafeLink);
        }
        if IsAbsolute(node.target) {
          resolved := [];
        }
        pending := PushComponents(pending, node.target);
      } else if pending == [] {
        if !node.Regular? || !policy.Trusts(node) || node.mode & 0x49 == 0 {
          return Failure(UnsafeFile);
        }
        return Success(candidate);
      } else {
        if !node.Directory? || !policy.Trusts(node) {
          return Failure(UnsafeDirectory);
        }
        resolved := candidate;
      }
    }
    NothingToOpen(tree, policy, Place(resolved, maxHops - hops));
    return Failure(NotAFile);
  }

  /** The whole resolution of an absolute path. */
  method Resolve(tree: Tree, path: Path, owner: nat, maxHops: nat) returns (r: Result<Location, Refusal>)
    ensures r == Checked(tree, OwnedBy(owner), path, maxHops)
  {
    var policy := OwnedBy(owner);
    if !IsAbsolute(path) {
      return Failure(NotAbsolute);
    }
    if !([] in tree && tree[[]].Directory? && policy.Trusts(tree[[]])) {
      return Failure(UnsafeDirectory);
    }
    var pending := PushComponents([], path);
    assert Reverse([]) == [] && Parts(path) + [] == Parts(path);
    r := Walk(tree, pending, owner, maxHops);
  }

  /** The provider runtime must be reached without a single link. */
  method ValidateRootExecutable(tree: Tree, path: Path) returns (r: Result<Location, Refusal>)
    ensures r == Checked(tree, OwnedBy(0), path, 0)
  {
    r := Resolve(tree, path, 0, 0);
  }

  /** For tools of the host, where a distribution may have placed links. */
  method ValidateSystemExecutable(tree: Tree, path: Path) returns (r: Result<Location, Refusal>)
    ensures r == Checked(tree, OwnedBy(0), path, SYSTEM_LINK_HOPS)
  {
    r := Resolve(tree, path, 0, SYSTEM_LINK_HOPS);
  }

  // ---- What a successful check means --------------------------------------------

  /** `at` and every directory above it, the root included, are trusted. */
  ghost predicate Grounded(tree: Tree, policy: Policy, at: Location) {
    forall k | 0 <= k <= |at| :: policy.TrustsDirectory(tree, at[..k])
  }

  /** A location whose directories are all trusted; it need not exist. */
  ghost predicate Guarded(tree: Tree, policy: Policy, at: Location) {
    at != [] ==> Grounded(tree, policy, Parent(at))
  }

  lemma GroundedBelow(tree: Tree, policy: Policy, dir: Location, name: string)
    requires Grounded(tree, policy, dir)
    ensures Grounded(tree, policy, Parent(dir))
    ensures Guarded(tree, policy, dir + [name])
    ensures policy.TrustsDirectory(tree, dir + [name]) ==> Grounded(tree, policy, dir + [name])
  {
    assert Parent(dir + [name]) == dir;
    forall k | 0 <= k <= |Parent(dir)| ensures policy.TrustsDirectory(tree, Parent(dir)[..k]) {
      assert Parent(dir)[..k] == dir[..k];
    }
    if policy.TrustsDirectory(tree, dir + [name]) {
      forall k | 0 <= k <= |dir| + 1 ensures policy.TrustsDirectory(tree, (dir + [name])[..k]) {
        assert (dir + [name])[..k] == if k <= |dir| then dir[..k] else dir + [name];
      }
    }
  }

  lemma FollowGrounded(tree: Tree, policy: Policy, from: Place, node: Node)
    requires node.Link? && Grounded(tree, policy, from.dir)
    ensures FollowFrom(policy, from, node).Success? ==> Grounded(tree, policy, FollowFrom(policy, from, node).value.dir)
  {
    assert from.dir[..0] == [];
    assert policy.TrustsDirectory(tree, from.dir[..0]);
  }

  lemma {:induction false} EnterGrounded(tree: Tree, policy: Policy, from: Place, part: Part)
    requires Grounded(tree, policy, from.dir)
    ensures var r := Enter(tree, policy, from, part); r.Success? ==> Grounded(tree, policy, r.value.dir)
    decreases from.hops, 0
  {
    match part
    case Up => GroundedBelow(tree, policy, from.dir, "");
    case Down(name) =>
      GroundedBelow(tree, policy, from.dir, name);
      var at := from.dir + [name];
      if at in tree && tree[at].Link? {
        FollowGrounded(tree, policy, from, tree[at]);
        var start := FollowFrom(policy, from, tree[at]);
        if start.Success? {
          EnterAllGrounded(tree, policy, start.value, Parts(tree[at].target));
        }
      }
  }

  lemma {:induction false} EnterAllGrounded(tree: Tree, policy: Policy, from: Place, parts: seq<Part>)
    requires Grounded(tree, policy, from.dir)
    ensures var r := EnterAll(tree, policy, from, parts); r.Success? ==> Grounded(tree, policy, r.value.dir)
    decreases from.hops, 1 + |parts|
  {
    if parts != [] {
      EnterGrounded(tree, policy, from, parts[0]);
      var next := Enter(tree, policy, from, parts[0]);
      if next.Success? {
        EnterAllGrounded(tree, policy, next.value, parts[1..]);
      }
    }
  }

  lemma {:induction false} OpenGrounded(tree: Tree, policy: Policy, from: Place, parts: seq<Part>)
    requires Grounded(tree, policy, from.dir)
    ensures var r := Open(tree, policy, from, parts);
            r.Success? ==>
              r.value != [] && Guarded(tree, policy, r.value) && policy.TrustsExecutable(tree, r.value)
    decreases from.hops
  {
    if parts != [] {
      var last := |parts| - 1;
      EnterAllGrounded(tree, policy, from, parts[..last]);
      var place := EnterAll(tree, policy, from, parts[..last]);
      if place.Success? && parts[last].Down? {
        var at := place.value.dir + [parts[last].name];
        GroundedBelow(tree, policy, place.value.dir, parts[last].name);
        if at in tree && tree[at].Link? {
          FollowGrounded(tree, policy, place.value, tree[at]);
          var start := FollowFrom(policy, place.value, tree[at]);
          if start.Success? {
            OpenGrounded(tree, policy, start.value, Parts(tree[at].target));
          }
        }
      }
    }
  }

  lemma RootGrounded(tree: Tree, policy: Policy)
    requires policy.TrustsDirectory(tree, [])
    ensures Grounded(tree, policy, [])
  {
    var root: Location := [];
    assert root[..0] == root;
    assert Grounded(tree, policy, root);
  }

  /**
   The answer is a link-free location: a trusted executable regular file whose
   directories, up to the root, are all real and trusted.
   */
  lemma CheckedIsTrusted(tree: Tree, owner: nat, path: Path, maxHops: nat)
    ensures var r := Checked(tree, OwnedBy(owner), path, maxHops);
            r.Success? ==>
              && r.value != []
              && OwnedBy(owner).TrustsExecutable(tree, r.value)
              && forall k | 0 <= k < |r.value| :: OwnedBy(owner).TrustsDirectory(tree, r.value[..k])
  {
    var policy := OwnedBy(owner);
    var r := Checked(tree, policy, path, maxHops);
    if r.Success? {
      RootGrounded(tree, policy);
      OpenGrounded(tree, policy, Place([], maxHops), Parts(path));
      forall k | 0 <= k < |r.value| ensures policy.TrustsDirectory(tree, r.value[..k]) {
        assert Parent(r.value)[..k] == r.value[..k];
      }
    }
  }

  // ---- The laws of a path ---------------------------------------------------------

  /** The absolute path that spells out a location. */
  function PathTo(dir: Location): Path {
    [RootDir] + seq(|dir|, k requires 0 <= k < |dir| => Normal(dir[k]))
  }

  lemma {:induction false} PartsAppend(a: Path, b: Path)
    ensures Parts(a + b) == Parts(a) + Parts(b)
  {
    if a == [] {
      assert a + b == b;
    } else {
      assert (a + b)[1..] == a[1..] + b;
      PartsAppend(a[1..], b);
    }
  }

  lemma PartsOne(part: Component)
    ensures Parts([part]) == match part
                             case Normal(name) => [Down(name)]
                             case ParentDir => [Up]
                             case _ => []
  {
    assert [part][1..] == [];
  }

  lemma PathToNext(dir: Location, name: string)
    ensures PathTo(dir + [name]) == PathTo(dir) + [Normal(name)]
  {
  }

  /** A path through trusted directories, none of them a link, is read from the last of them. */
  lemma {:induction false} FromTheDirectory(tree: Tree, policy: Policy, dir: Location, rest: Path, hops: nat)
    requires Grounded(tree, policy, dir) && Parts(rest) != []
    ensures Checked(tree, policy, PathTo(dir) + rest, hops) == Open(tree, policy, Place(dir, hops), Parts(rest))
    decreases |dir|
  {
    assert dir[..0] == [] && policy.TrustsDirectory(tree, dir[..0]);
    assert IsAbsolute(PathTo(dir) + rest);
    hide Open;
    if dir == [] {
      assert PathTo(dir) == [RootDir];
      PartsOne(RootDir);
      PartsAppend([RootDir], rest);
      assert [] + Parts(rest) == Parts(rest);
    } else {
      hide Parts;
      var above, name := Parent(dir), dir[|dir| - 1];
      assert dir == above + [name];
      GroundedBelow(tree, policy, dir, name);
      PathToNext(above, name);
      assert PathTo(above) + [Normal(name)] + rest == PathTo(above) + ([Normal(name)] + rest);
      PartsOne(Normal(name));
      PartsAppend([Normal(name)], rest);
      FromTheDirectory(tree, policy, above, [Normal(name)] + rest, hops);
      assert dir[..|dir|] == dir && policy.TrustsDirectory(tree, dir[..|dir|]);
      OpenStep(tree, policy, Place(above, hops), Down(name), Parts(rest));
    }
  }

  /**
   A link below trusted directories stands for its target: an absolute one for
   that path, a relative one for the path from the link's own directory. It costs
   a hop and must belong to the owner.
   */
  lemma LinkIsItsTarget(tree: Tree, policy: Policy, dir: Location, name: string, rest: Path, hops: nat)
    requires Grounded(tree, policy, dir) && dir + [name] in tree && tree[dir + [name]].Link?
    ensures var target := tree[dir + [name]].target;
            Checked(tree, policy, PathTo(dir) + [Normal(name)] + rest, hops) ==
            if hops == 0 then Failure(TooManyLinks)
            else if !policy.Owns(tree[dir + [name]]) then Failure(UnsafeLink)
            else if IsAbsolute(target) then Checked(tree, policy, target + rest, hops - 1)
            else if Parts(target + rest) == [] then Failure(NotAFile)
            else Checked(tree, policy, PathTo(dir) + (target + rest), hops - 1)
  {
    hide Parts, Open;
    var target := tree[dir + [name]].target;
    assert dir[..0] == [] && policy.TrustsDirectory(tree, dir[..0]);
    assert PathTo(dir) + [Normal(name)] + rest == PathTo(dir) + ([Normal(name)] + rest);
    PartsOne(Normal(name));
    PartsAppend([Normal(name)], rest);
    PartsAppend(target, rest);
    FromTheDirectory(tree, policy, dir, [Normal(name)] + rest, hops);
    OpenStep(tree, policy, Place(dir, hops), Down(name), Parts(rest));
    if Parts(target + rest) != [] {
      if hops > 0 && !IsAbsolute(target) {
        FromTheDirectory(tree, policy, dir, target + rest, hops - 1);
      }
    } else if hops > 0 {
      NothingToOpen(tree, policy, Place([], hops - 1));
      NothingToOpen(tree, policy, Place(dir, hops - 1));
      assert Reverse([]) == [];
    }
  }

  /** Going into a trusted directory and out again leads nowhere else. */
  lemma UpUndoesDown(tree: Tree, policy: Policy, dir: Location, name: string, rest: Path, hops: nat)
    requires Grounded(tree, policy, dir) && policy.TrustsDirectory(tree, dir + [name]) && Parts(rest) != []
    ensures Checked(tree, policy, PathTo(dir) + [Normal(name), ParentDir] + rest, hops) ==
            Checked(tree, policy, PathTo(dir) + rest, hops)
  {
    hide Parts, Open, Checked;
    var at := dir + [name];
    GroundedBelow(tree, policy, dir, name);
    PathToNext(dir, name);
    assert PathTo(dir) + [Normal(name), ParentDir] + rest == PathTo(at) + ([ParentDir] + rest);
    hide PathTo, Grounded;
    PartsOne(ParentDir);
    PartsAppend([ParentDir], rest);
    FromTheDirectory(tree, policy, at, [ParentDir] + rest, hops);
    OpenStep(tree, policy, Place(at, hops), Up, Parts(rest));
    FromTheDirectory(tree, policy, dir, rest, hops);
  }

  /** Above the root is the root. */
  lemma RootIsItsParent(tree: Tree, policy: Policy, rest: Path, hops: nat)
    requires policy.TrustsDirectory(tree, []) && Parts(rest) != []
    ensures Checked(tree, policy, [RootDir, ParentDir] + rest, hops) == Checked(tree, policy, [RootDir] + rest, hops)
  {
    hide Parts, Open, Checked;
    RootGrounded(tree, policy);
    assert [RootDir, ParentDir] + rest == PathTo([]) + ([ParentDir] + rest) && [RootDir] + rest == PathTo([]) + rest;
    PartsOne(ParentDir);
    PartsAppend([ParentDir], rest);
    FromTheDirectory(tree, policy, [], [ParentDir] + rest, hops);
    FromTheDirectory(tree, policy, [], rest, hops);
    OpenStep(tree, policy, Place([], hops), Up, Parts(rest));
  }

  /** A path that ends by going up names no file. */
  lemma UpIsNoFile(tree: Tree, policy: Policy, dir: Location, hops: nat)
    requires Grounded(tree, policy, dir)
    ensures Checked(tree, policy, PathTo(dir) + [ParentDir], hops) == Failure(NotAFile)
  {
    hide Parts, Open, Checked;
    PartsOne(ParentDir);
    FromTheDirectory(tree, policy, dir, [ParentDir], hops);
    OpenStep(tree, policy, Place(dir, hops), Up, []);
    assert [Up] + [] == [Up];
  }

  /** What is no link: the last name must be a trusted executable, every other one a trusted directory. */
  lemma NameIsItself(tree: Tree, policy: Policy, dir: Location, name: string, rest: Path, hops: nat)
    requires Grounded(tree, policy, dir) && (dir + [name] in tree ==> !tree[dir + [name]].Link?)
    ensures var at := dir + [name]; var r := Checked(tree, policy, PathTo(dir) + [Normal(name)] + rest, hops);
            && (at !in tree ==> r == Failure(Missing))
            && (at in tree && Parts(rest) == [] ==>
                  r == if policy.TrustsExecutable(tree, at) then Success(at) else Failure(UnsafeFile))
            && (at in tree && Parts(rest) != [] && !policy.TrustsDirectory(tree, at) ==> r == Failure(UnsafeDirectory))
  {
    hide Parts, Open;
    assert PathTo(dir) + [Normal(name)] + rest == PathTo(dir) + ([Normal(name)] + rest);
    PartsOne(Normal(name));
    PartsAppend([Normal(name)], rest);
    FromTheDirectory(tree, policy, dir, [Normal(name)] + rest, hops);
    OpenStep(tree, policy, Place(dir, hops), Down(name), Parts(rest));
  }

  /** A "." anywhere, or a repeated root, changes nothing. */
  lemma DotsDoNotMatter(tree: Tree, policy: Policy, path: Path, rest: Path, hops: nat)
    requires path != []
    ensures Checked(tree, policy, path + [CurDir] + rest, hops) == Checked(tree, policy, path + rest, hops)
  {
    hide Parts, Open;
    PartsOne(CurDir);
    PartsAppend(path, [CurDir]);
    PartsAppend(path + [CurDir], rest);
    PartsAppend(path, rest);
    assert Parts(path) + [] == Parts(path);
  }

  /** The mode bits: writing by the group is bit 4, by others bit 1; executing is one of the bits 6, 3 and 0. */
  lemma ModeBits(owner: nat, node: Node, tree: Tree, at: Location)
    requires !node.Link? && at in tree && tree[at] == node
    ensures OwnedBy(owner).Trusts(node) <==>
            node.owner == owner && (node.mode >> 4) & 1 == 0 && (node.mode >> 1) & 1 == 0
    ensures OwnedBy(owner).TrustsExecutable(tree, at) <==>
            && node.Regular? && OwnedBy(owner).Trusts(node)
            && ((node.mode >> 6) & 1 == 1 || (node.mode >> 3) & 1 == 1 || node.mode & 1 == 1)
  {
  }

  // ---- The hop budget ---------------------------------------------------------------

  /** The same outcome with `extra` more hops to spare. */
  function Spare(r: Result<Place, Refusal>, extra: nat): Result<Place, Refusal> {
    if r.Success? then Success(r.value.(hops := r.value.hops + extra)) else r
  }

  lemma {:induction false} EnterSpare(tree: Tree, policy: Policy, from: Place, part: Part, extra: nat)
    requires Enter(tree, policy, from, part) != Failure(TooManyLinks)
    ensures Enter(tree, policy, from.(hops := from.hops + extra), part) ==
            Spare(Enter(tree, policy, from, part), extra)
    decreases from.hops, 0
  {
    if part.Down? && from.dir + [part.name] in tree && tree[from.dir + [part.name]].Link? {
      var node := tree[from.dir + [part.name]];
      var start := FollowFrom(policy, from, node);
      if start.Success? {
        EnterAllSpare(tree, policy, start.value, Parts(node.target), extra);
      }
    }
  }

  lemma {:induction false} EnterAllSpare(tree: Tree, policy: Policy, from: Place, parts: seq<Part>, extra: nat)
    requires EnterAll(tree, policy, from, parts) != Failure(TooManyLinks)
    ensures EnterAll(tree, policy, from.(hops := from.hops + extra), parts) ==
            Spare(EnterAll(tree, policy, from, parts), extra)
    decreases from.hops, 1 + |parts|
  {
    if parts != [] {
      EnterSpare(tree, policy, from, parts[0], extra);
      var next := Enter(tree, policy, from, parts[0]);
      if next.Success? {
        EnterAllSpare(tree, policy, next.value, parts[1..], extra);
      }
    }
  }

  /**
   The budget only ever cuts a walk short: unless the smaller budget is what
   refused it, a larger one changes nothing.
   */
  lemma {:induction false} OpenSpare(tree: Tree, policy: Policy, from: Place, parts: seq<Part>, extra: nat)
    requires Open(tree, policy, from, parts) != Failure(TooManyLinks)
    ensures Open(tree, policy, from.(hops := from.hops + extra), parts) == Open(tree, policy, from, parts)
    decreases from.hops
  {
    hide EnterAll, Parts;
    if parts != [] {
      var last := |parts| - 1;
      EnterAllSpare(tree, policy, from, parts[..last], extra);
      var place := EnterAll(tree, policy, from, parts[..last]);
      if place.Success? && parts[last].Down? {
        var at := place.value.dir + [parts[last].name];
        if at in tree && tree[at].Link? {
          var start := FollowFrom(policy, place.value, tree[at]);
          if start.Success? {
            OpenSpare(tree, policy, start.value, Parts(tree[at].target), extra);
          }
        }
      }
    }
  }

  lemma HopBudgetOnlyRefuses(tree: Tree, policy: Policy, path: Path, fewer: nat, more: nat)
    requires fewer <= more
    ensures Checked(tree, policy, path, fewer) == Checked(tree, policy, path, more)
            || Checked(tree, policy, path, fewer) == Failure(TooManyLinks)
  {
    if Checked(tree, policy, path, fewer) != Failure(TooManyLinks) && IsAbsolute(path)
       && policy.TrustsDirectory(tree, []) {
      OpenSpare(tree, policy, Place([], fewer), Parts(path), more - fewer);
    }
  }

  // ---- No link at all ------------------------------------------------------------------

  function Names(parts: seq<Part>): (names: Location)
    requires forall part <- parts :: part.Down?
    ensures |names| == |parts| && forall k | 0 <= k < |parts| :: names[k] == parts[k].name
  {
    seq(|parts|, k requires 0 <= k < |parts| => parts[k].name)
  }

  lemma {:induction false} EnterAllStrict(tree: Tree, policy: Policy, dir: Location, parts: seq<Part>)
    requires Grounded(tree, policy, dir) && forall part <- parts :: part.Down?
    ensures var r := EnterAll(tree, policy, Place(dir, 0), parts);
            && (r.Success? <==> Grounded(tree, policy, dir + Names(parts)))
            && (r.Success? ==> r.value == Place(dir + Names(parts), 0))
    decreases |parts|
  {
    var all := dir + Names(parts);
    if parts == [] {
      assert all == dir;
    } else {
      var at := dir + [parts[0].name];
      assert all == at + Names(parts[1..]);
      assert all[..|dir| + 1] == at;
      GroundedBelow(tree, policy, dir, parts[0].name);
      if policy.TrustsDirectory(tree, at) {
        EnterAllStrict(tree, policy, at, parts[1..]);
      }
    }
  }

  /** Opening ends with the last component, in the directory that the others lead to. */
  lemma OpenLast(tree: Tree, policy: Policy, parts: seq<Part>, found: Location)
    requires policy != Unchecked && parts != [] && parts[|parts| - 1].Down?
    ensures var dir := EnterAll(tree, policy, Place([], 0), parts[..|parts| - 1]);
            Open(tree, policy, Place([], 0), parts) == Success(found) <==>
            && dir.Success? && found == dir.value.dir + [parts[|parts| - 1].name]
            && policy.TrustsExecutable(tree, found)
  {
    hide EnterAll;
  }

  /** The last component, after all others were entered. */
  lemma StrictOpen(tree: Tree, policy: Policy, parts: seq<Part>, found: Location)
    requires policy != Unchecked && policy.TrustsDirectory(tree, []) && parts != []
    requires forall part <- parts :: part.Down?
    ensures Open(tree, policy, Place([], 0), parts) == Success(found) <==>
            found == Names(parts) && Grounded(tree, policy, Parent(found)) && policy.TrustsExecutable(tree, found)
  {
    hide EnterAll, Open, Grounded;
    var init, last := parts[..|parts| - 1], parts[|parts| - 1];
    RootGrounded(tree, policy);
    EnterAllStrict(tree, policy, [], init);
    OpenLast(tree, policy, parts, found);
    assert [] + Names(init) == Names(init);
    assert Names(parts) == Names(init) + [last.name];
    assert Parent(Names(parts)) == Names(init);
  }

  /**
   With no hop to spend, a path without ".." is accepted exactly when it is
   itself a trusted executable below trusted directories, and the answer is
   then the path that was asked for.
   */
  lemma StrictCheck(tree: Tree, owner: nat, path: Path, found: Location)
    requires IsAbsolute(path) && forall part <- Parts(path) :: part.Down?
    ensures Checked(tree, OwnedBy(owner), path, 0) == Success(found) <==>
            && found == Names(Parts(path))
            && found != []
            && Grounded(tree, OwnedBy(owner), Parent(found))
            && OwnedBy(owner).TrustsExecutable(tree, found)
  {
    var policy := OwnedBy(owner);
    var parts := Parts(path);
    if !policy.TrustsDirectory(tree, []) {
      if found != [] {
        assert Parent(found)[..0] == [];
      }
    } else if parts != [] {
      hide Parts, Open, Grounded;
      StrictOpen(tree, policy, parts, found);
    }
  }

  // ---- From the check to the execution ---------------------------------------------------

  predicate SameKind(a: Node, b: Node) {
    match a
    case Link(_, target) => b.Link? && b.target == target
    case Directory(_, _) => b.Directory?
    case Regular(_, _) => b.Regular?
    case Special(_, _) => b.Special?
  }

  /**
   What everyone but `owner` may have done between two looks at the tree. An
   entry of a trusted directory below trusted directories can neither appear,
   vanish nor be replaced; its metadata changes only if someone else owns it,
   and then its owner never becomes `owner`. Everything else is arbitrary.
   */
  ghost predicate Tampered(before: Tree, after: Tree, owner: nat) {
    forall at: Location | Guarded(before, OwnedBy(owner), at) ::
      && (at in before <==> at in after)
      && (at in before ==>
            && SameKind(before[at], after[at])
            && (before[at].owner == owner ==> after[at] == before[at])
            && (before[at].owner != owner ==> after[at].owner != owner))
  }

  /** What a walk can see of an entry of a trusted directory stays as it was. */
  lemma EntryTampered(before: Tree, after: Tree, owner: nat, dir: Location, name: string)
    requires Tampered(before, after, owner) && Grounded(before, OwnedBy(owner), dir)
    ensures var at := dir + [name]; var policy := OwnedBy(owner);
            && (at in before <==> at in after)
            && (at in before ==>
                  && before[at].Link? == after[at].Link?
                  && (before[at].Link? ==>
                        before[at].target == after[at].target && policy.Owns(before[at]) == policy.Owns(after[at])))
            && policy.TrustsDirectory(before, at) == policy.TrustsDirectory(after, at)
            && policy.TrustsExecutable(before, at) == policy.TrustsExecutable(after, at)
  {
    GroundedBelow(before, OwnedBy(owner), dir, name);
  }

  lemma {:induction false} EnterTampered(before: Tree, after: Tree, owner: nat, from: Place, part: Part)
    requires Tampered(before, after, owner) && Grounded(before, OwnedBy(owner), from.dir)
    ensures Enter(after, OwnedBy(owner), from, part) == Enter(before, OwnedBy(owner), from, part)
    decreases from.hops, 0
  {
    if part.Down? {
      var policy := OwnedBy(owner);
      var at := from.dir + [part.name];
      EntryTampered(before, after, owner, from.dir, part.name);
      if at in before && before[at].Link? {
        FollowGrounded(before, policy, from, before[at]);
        var start := FollowFrom(policy, from, before[at]);
        if start.Success? {
          EnterAllTampered(before, after, owner, start.value, Parts(before[at].target));
        }
      }
    }
  }

  lemma {:induction false} EnterAllTampered(before: Tree, after: Tree, owner: nat, from: Place, parts: seq<Part>)
    requires Tampered(before, after, owner) && Grounded(before, OwnedBy(owner), from.dir)
    ensures EnterAll(after, OwnedBy(owner), from, parts) == EnterAll(before, OwnedBy(owner), from, parts)
    decreases from.hops, 1 + |parts|
  {
    if parts != [] {
      EnterTampered(before, after, owner, from, parts[0]);
      EnterGrounded(before, OwnedBy(owner), from, parts[0]);
      var next := Enter(before, OwnedBy(owner), from, parts[0]);
      if next.Success? {
        EnterAllTampered(before, after, owner, next.value, parts[1..]);
      }
    }
  }

  lemma {:induction false} OpenTampered(before: Tree, after: Tree, owner: nat, from: Place, parts: seq<Part>)
    requires Tampered(before, after, owner) && Grounded(before, OwnedBy(owner), from.dir)
    ensures Open(after, OwnedBy(owner), from, parts) == Open(before, OwnedBy(owner), from, parts)
    decreases from.hops
  {
    if parts != [] {
      var policy := OwnedBy(owner);
      var last := |parts| - 1;
      EnterAllTampered(before, after, owner, from, parts[..last]);
      EnterAllGrounded(before, policy, from, parts[..last]);
      var place := EnterAll(before, policy, from, parts[..last]);
      if place.Success? && parts[last].Down? {
        var at := place.value.dir + [parts[last].name];
        EntryTampered(before, after, owner, place.value.dir, parts[last].name);
        if at in before && before[at].Link? {
          FollowGrounded(before, policy, place.value, before[at]);
          var start := FollowFrom(policy, place.value, before[at]);
          if start.Success? {
            OpenTampered(before, after, owner, start.value, Parts(before[at].target));
          }
        }
      }
    }
  }

  /** The verdict and the answer depend on nothing anyone else can change. */
  lemma VerdictIsTamperProof(before: Tree, after: Tree, owner: nat, path: Path, maxHops: nat)
    requires Tampered(before, after, owner)
    ensures Checked(after, OwnedBy(owner), path, maxHops) == Checked(before, OwnedBy(owner), path, maxHops)
  {
    assert Guarded(before, OwnedBy(owner), []);
    if OwnedBy(owner).TrustsDirectory(before, []) {
      RootGrounded(before, OwnedBy(owner));
      OpenTampered(before, after, owner, Place([], maxHops), Parts(path));
    }
  }

  lemma {:induction false} EnterUnchecked(tree: Tree, policy: Policy, from: Place, part: Part)
    requires Enter(tree, policy, from, part).Success?
    ensures Enter(tree, Unchecked, from, part) == Enter(tree, policy, from, part)
    decreases from.hops, 0
  {
    if part.Down? && tree[from.dir + [part.name]].Link? {
      var node := tree[from.dir + [part.name]];
      EnterAllUnchecked(tree, policy, FollowFrom(policy, from, node).value, Parts(node.target));
    }
  }

  lemma {:induction false} EnterAllUnchecked(tree: Tree, policy: Policy, from: Place, parts: seq<Part>)
    requires EnterAll(tree, policy, from, parts).Success?
    ensures EnterAll(tree, Unchecked, from, parts) == EnterAll(tree, policy, from, parts)
    decreases from.hops, 1 + |parts|
  {
    if parts != [] {
      EnterUnchecked(tree, policy, from, parts[0]);
      EnterAllUnchecked(tree, policy, Enter(tree, policy, from, parts[0]).value, parts[1..]);
    }
  }

  lemma {:induction false} OpenUnchecked(tree: Tree, policy: Policy, from: Place, parts: seq<Part>)
    requires Open(tree, policy, from, parts).Success?
    ensures Open(tree, Unchecked, from, parts) == Open(tree, policy, from, parts)
    decreases from.hops
  {
    var last := |parts| - 1;
    EnterAllUnchecked(tree, policy, from, parts[..last]);
    var place := EnterAll(tree, policy, from, parts[..last]).value;
    var node := tree[place.dir + [parts[last].name]];
    if node.Link? {
      OpenUnchecked(tree, policy, FollowFrom(policy, place, node).value, Parts(node.target));
    }
  }

  /**
   Callers execute the original path. After a successful check, and after
   anything the others did meanwhile, a walk of that path with no check of its
   own (and at least as many links allowed) ends at the checked file, unchanged.
   */
  lemma ExecutionReachesTheCheckedFile(before: Tree, after: Tree, owner: nat, path: Path, maxHops: nat, kernelHops: nat)
    requires Tampered(before, after, owner) && maxHops <= kernelHops
    requires Checked(before, OwnedBy(owner), path, maxHops).Success?
    ensures var found := Checked(before, OwnedBy(owner), path, maxHops).value;
            && Checked(after, Unchecked, path, kernelHops) == Success(found)
            && found in before && found in after
            && after[found] == before[found]
  {
    var policy := OwnedBy(owner);
    VerdictIsTamperProof(before, after, owner, path, maxHops);
    OpenUnchecked(after, policy, Place([], maxHops), Parts(path));
    HopBudgetOnlyRefuses(after, Unchecked, path, maxHops, kernelHops);
    RootGrounded(before, policy);
    OpenGrounded(before, policy, Place([], maxHops), Parts(path));
  }
}
