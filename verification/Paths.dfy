// Path normalisation against the raw walk of a directory tree.
module Paths {
  import opened Types

  /** `children` of a node that is no directory is absent; names are unique below a node. */
  datatype Tree = Tree(root: nat, name: map<nat, string>, father: map<nat, nat>, kids: map<nat, map<string, nat>>,
      depth: map<nat, nat>)

  datatype Kind = Skip | Up | Name

  function KindOf(s: string): Kind {
    if s == "" || s == "." then Skip else if s == ".." then Up else Name
  }

  /** A component that names a child. */
  predicate Plain(s: string) {
    KindOf(s) == Name && '/' !in s
  }

  ghost predicate NodeOk(t: Tree, n: nat)
    requires n in t.name
  {
    && n in t.depth
    && (if n == t.root then t.name[n] == "" && n !in t.father
        else
          && n in t.father && t.father[n] in t.name && t.father[n] in t.kids
          && t.name[n] in t.kids[t.father[n]] && t.kids[t.father[n]][t.name[n]] == n
          && t.father[n] in t.depth && t.depth[n] == t.depth[t.father[n]] + 1)
  }

  ghost predicate KidsOk(t: Tree, n: nat)
    requires n in t.kids
  {
    forall s :: s in t.kids[n] ==>
      && Plain(s) && t.kids[n][s] in t.name && t.kids[n][s] != t.root && t.name[t.kids[n][s]] == s
      && t.kids[n][s] in t.father && t.father[t.kids[n][s]] == n
  }

  /** A tree without renames: every node is its father's child under its own name. */
  ghost predicate Ok(t: Tree) {
    && t.root in t.name
    && (forall n :: n in t.name ==> NodeOk(t, n))
    && (forall n :: n in t.kids ==> n in t.name && KidsOk(t, n))
  }

  datatype Found = Node(n: nat) | NotDir | NoEntry

  /** One component of `cd_comp`. */
  function Step(t: Tree, n: nat, s: string): Found {
    if KindOf(s) == Up then Node(if n in t.father then t.father[n] else n)
    else if n !in t.kids then NotDir
    else if s in t.kids[n] then Node(t.kids[n][s])
    else NoEntry
  }

  /** `cd_comp` */
  function Walk(t: Tree, n: nat, v: seq<string>): Found {
    if v == [] then Node(n) else
      match Walk(t, n, v[..|v| - 1])
      case Node(m) => Step(t, m, v[|v| - 1])
      case e => e
  }

  /** The walk of the components as they stand in the path. */
  function RawWalk(t: Tree, n: nat, v: seq<string>): Found {
    if v == [] then Node(n) else
      match RawWalk(t, n, v[..|v| - 1])
      case Node(m) => if KindOf(v[|v| - 1]) == Skip then Node(m) else Step(t, m, v[|v| - 1])
      case e => e
  }

  /** One turn of the fold of `parse_dir_path`. */
  function Push(v: seq<string>, s: string): seq<string> {
    match KindOf(s)
    case Skip => v
    case Up => if v == [] || KindOf(v[|v| - 1]) == Up then v + [s] else v[..|v| - 1]
    case Name => v + [s]
  }

  function Normal(v: seq<string>): seq<string> {
    if v == [] then [] else Push(Normal(v[..|v| - 1]), v[|v| - 1])
  }

  lemma WalkSnoc(t: Tree, n: nat, v: seq<string>, s: string)
    ensures Walk(t, n, v + [s]) == match Walk(t, n, v) case Node(m) => Step(t, m, s) case e => e
  {
    assert (v + [s])[..|v|] == v;
  }

  /** Going down and up again comes back. */
  lemma DownUp(t: Tree, n: nat, s: string, up: string)
    requires Ok(t) && KindOf(s) != Up && KindOf(up) == Up && Step(t, n, s).Node?
    ensures Step(t, Step(t, n, s).n, up) == Node(n)
  {
    hide KindOf;
    assert KidsOk(t, n);
  }

  lemma RawSnoc(t: Tree, n: nat, v: seq<string>)
    requires v != []
    ensures RawWalk(t, n, v) ==
            match RawWalk(t, n, v[..|v| - 1])
            case Node(m) => if KindOf(v[|v| - 1]) == Skip then Node(m) else Step(t, m, v[|v| - 1])
            case e => e
  {
  }

  lemma NormalSnoc(v: seq<string>)
    requires v != []
    ensures Normal(v) == Push(Normal(v[..|v| - 1]), v[|v| - 1])
  {
  }

  /** The child `s` of node `m`, if that is a directory. */
  ghost function Lookup(t: Tree, m: nat, s: string): Found {
    if m !in t.kids then NotDir else if s in t.kids[m] then Node(t.kids[m][s]) else NoEntry
  }

  /** Empty components and "." stay where they are, ".." goes to the father or stays at the root, and every other
      component is looked up below the node. */
  lemma RawComponent(t: Tree, n: nat, v: seq<string>, s: string)
    ensures s == "" || s == "." ==> RawWalk(t, n, v + [s]) == RawWalk(t, n, v)
    ensures s == ".." ==>
              RawWalk(t, n, v + [s]) ==
              match RawWalk(t, n, v) case Node(m) => Node(if m in t.father then t.father[m] else m) case e => e
    ensures s != "" && s != "." && s != ".." ==>
              RawWalk(t, n, v + [s]) == match RawWalk(t, n, v) case Node(m) => Lookup(t, m, s) case e => e
  {
    assert (v + [s])[..|v|] == v;
    RawSnoc(t, n, v + [s]);
  }

  /** The same for a normal path, which holds neither "" nor ".". */
  lemma WalkComponent(t: Tree, n: nat, v: seq<string>, s: string)
    requires s != "" && s != "."
    ensures Walk(t, n, v + [s]) ==
            match Walk(t, n, v)
            case Node(m) => if s == ".." then Node(if m in t.father then t.father[m] else m) else Lookup(t, m, s)
            case e => e
  {
    WalkSnoc(t, n, v, s);
  }

  /** "." and empty components may be left out anywhere. */
  lemma {:induction false} NormalSkips(v: seq<string>, s: string, w: seq<string>)
    requires s == "" || s == "."
    ensures Normal(v + [s] + w) == Normal(v + w)
    decreases |w|
  {
    if w == [] {
      assert v + [s] + w == v + [s] && v + w == v && (v + [s])[..|v|] == v;
    } else {
      var front, last := w[..|w| - 1], w[|w| - 1];
      NormalSkips(v, s, front);
      assert (v + [s] + w)[..|v + [s] + w| - 1] == v + [s] + front;
      assert (v + w)[..|v + w| - 1] == v + front;
    }
  }

  /** A name followed by ".." may be left out anywhere. */
  lemma {:induction false} NormalCancels(v: seq<string>, s: string, w: seq<string>)
    requires s != "" && s != "." && s != ".."
    ensures Normal(v + [s, ".."] + w) == Normal(v + w)
    decreases |w|
  {
    if w == [] {
      assert v + [s, ".."] + w == v + [s] + [".."] && v + w == v;
      assert (v + [s] + [".."])[..|v| + 1] == v + [s] && (v + [s])[..|v|] == v;
      assert Normal(v + [s]) == Normal(v) + [s];
    } else {
      var front := w[..|w| - 1];
      NormalCancels(v, s, front);
      assert (v + [s, ".."] + w)[..|v + [s, ".."] + w| - 1] == v + [s, ".."] + front;
      assert (v + w)[..|v + w| - 1] == v + front;
    }
  }

  /** Normalising a path keeps where it leads, wherever its raw walk leads anywhere. */
  lemma {:induction false} NormalKeepsWalk(t: Tree, n: nat, v: seq<string>)
    requires Ok(t) && n in t.name && RawWalk(t, n, v).Node?
    ensures Walk(t, n, Normal(v)) == RawWalk(t, n, v)
  {
    hide KindOf, Ok, Step, RawWalk, Walk, Normal;
    if v == [] {
      EmptyWalks(t, n);
    } else {
      var front, s := v[..|v| - 1], v[|v| - 1];
      RawSnoc(t, n, v);
      NormalSnoc(v);
      NormalKeepsWalk(t, n, front);
      var w := Normal(front);
      if KindOf(s) == Up && w != [] && KindOf(w[|w| - 1]) != Up {
        var up := w[..|w| - 1];
        assert w == up + [w[|w| - 1]];
        WalkSnoc(t, n, up, w[|w| - 1]);
        DownUp(t, Walk(t, n, up).n, w[|w| - 1], s);
      } else if KindOf(s) != Skip {
        WalkSnoc(t, n, w, s);
      }
    }
  }

  lemma EmptyWalks(t: Tree, n: nat)
    ensures Normal([]) == [] && Walk(t, n, []) == Node(n) == RawWalk(t, n, [])
  {
  }

  /** Some ".." first, then only names. */
  ghost predicate UpsThenNames(v: seq<string>) {
    && (forall i :: 0 <= i < |v| ==> KindOf(v[i]) != Skip)
    && (forall i, j :: 0 <= i < j < |v| && KindOf(v[j]) == Up ==> KindOf(v[i]) == Up)
  }

  lemma {:induction false} NormalShape(v: seq<string>)
    ensures UpsThenNames(Normal(v))
  {
    hide KindOf;
    if v != [] {
      NormalShape(v[..|v| - 1]);
    }
  }

  /** Normalising again changes nothing. */
  lemma {:induction false} NormalTwice(v: seq<string>)
    requires UpsThenNames(v)
    ensures Normal(v) == v
  {
    hide KindOf;
    if v != [] {
      assert v == v[..|v| - 1] + [v[|v| - 1]];
      NormalTwice(v[..|v| - 1]);
    }
  }

  lemma {:induction false} RawPrefix(t: Tree, n: nat, v: seq<string>, i: nat)
    requires i <= |v| && RawWalk(t, n, v).Node?
    ensures RawWalk(t, n, v[..i]).Node?
  {
    if i < |v| {
      RawPrefix(t, n, v[..|v| - 1], i);
      assert v[..|v| - 1][..i] == v[..i];
    } else {
      assert v[..i] == v;
    }
  }

  /** The raw walk leads somewhere exactly when the normal form of every prefix does. */
  lemma {:induction false} RawWalksIff(t: Tree, n: nat, v: seq<string>)
    requires Ok(t) && n in t.name
    ensures RawWalk(t, n, v).Node? <==> forall i :: 0 <= i <= |v| ==> Walk(t, n, Normal(v[..i])).Node?
  {
    hide KindOf, Ok, RawWalk, Walk, Normal;
    if RawWalk(t, n, v).Node? {
      forall i | 0 <= i <= |v|
        ensures Walk(t, n, Normal(v[..i])).Node?
      {
        RawPrefix(t, n, v, i);
        NormalKeepsWalk(t, n, v[..i]);
      }
    } else {
      var i := FirstMissing(t, n, v);
      MissingHere(t, n, v, i);
    }
  }

  /** The name `v[i]` is missing at its own place, to which the path before it leads. */
  ghost predicate Missing(t: Tree, n: nat, v: seq<string>, i: nat)
    requires i < |v|
  {
    var at := Walk(t, n, Normal(v[..i]));
    KindOf(v[i]) == Name && at.Node? && !Step(t, at.n, v[i]).Node?
  }

  lemma MissingHere(t: Tree, n: nat, v: seq<string>, i: nat)
    requires i < |v| && Missing(t, n, v, i)
    ensures Normal(v[..i + 1]) == Normal(v[..i]) + [v[i]] && !Walk(t, n, Normal(v[..i + 1])).Node?
  {
    hide KindOf, Step;
    assert v[..i + 1][..i] == v[..i];
    WalkSnoc(t, n, Normal(v[..i]), v[i]);
  }

  lemma {:induction false} FirstMissing(t: Tree, n: nat, v: seq<string>) returns (i: nat)
    requires Ok(t) && n in t.name && !RawWalk(t, n, v).Node?
    ensures i < |v| && Missing(t, n, v, i)
  {
    hide Ok, Walk, Normal, RawWalk;
    EmptyWalks(t, n);
    assert v != [];
    var front := v[..|v| - 1];
    RawSnoc(t, n, v);
    if RawWalk(t, n, front).Node? {
      NormalKeepsWalk(t, n, front);
      i := |v| - 1;
    } else {
      i := FirstMissing(t, n, front);
      assert front[..i] == v[..i];
    }
  }

  /** A path is accepted although its raw walk fails exactly when it has a missing name that a later ".." pops. */
  lemma ForgivenIff(t: Tree, n: nat, v: seq<string>)
    requires Ok(t) && n in t.name && Walk(t, n, Normal(v)).Node?
    ensures !RawWalk(t, n, v).Node? <==>
              exists i :: 0 <= i < |v| && Missing(t, n, v, i) && !(Normal(v[..i + 1]) <= Normal(v))
    ensures RawWalk(t, n, v).Node? <==> forall i :: 0 <= i < |v| ==> !Missing(t, n, v, i)
  {
    hide KindOf, Ok, Walk, Normal, RawWalk, Missing;
    RawWalksIff(t, n, v);
    forall i | 0 <= i < |v| && Missing(t, n, v, i)
      ensures !Walk(t, n, Normal(v[..i + 1])).Node? && !(Normal(v[..i + 1]) <= Normal(v))
    {
      MissingHere(t, n, v, i);
      if Normal(v[..i + 1]) <= Normal(v) {
        assert Normal(v)[..|Normal(v[..i + 1])|] == Normal(v[..i + 1]);
        WalkFails(t, n, Normal(v), |Normal(v[..i + 1])|);
      }
    }
    if !RawWalk(t, n, v).Node? {
      var i := FirstMissing(t, n, v);
    }
  }

  /** The converse fails: a missing name before ".." is forgiven. */
  lemma MissingNameForgiven()
    ensures var t := Tree(0, map[0 := ""], map[], map[0 := map[]], map[0 := 0]);
            Ok(t) && RawWalk(t, 0, ["x", ".."]) == NoEntry && Walk(t, 0, Normal(["x", ".."])) == Node(0)
  {
    var t := Tree(0, map[0 := ""], map[], map[0 := map[]], map[0 := 0]);
    var v := ["x", ".."];
    assert v[..1] == ["x"] && ["x"][..0] == [];
    assert RawWalk(t, 0, ["x"]) == NoEntry;
    assert Normal(["x"]) == ["x"] && Normal(v) == ["x"][..0];
  }

  // ----- Absolute paths -----

  /** `path.split('/')` */
  function Split(path: string): (v: seq<string>)
    ensures v != []
  {
    if path == "" then [""] else
      var v := Split(path[..|path| - 1]);
      var c := path[|path| - 1];
      if c == '/' then v + [""] else v[..|v| - 1] + [v[|v| - 1] + [c]]
  }

  /** `names.join("/")` */
  function Join(names: seq<string>): string {
    if names == [] then "" else if |names| == 1 then names[0] else Join(names[..|names| - 1]) + "/" + names[|names| - 1]
  }

  lemma {:induction false} SplitPiece(path: string, s: string)
    requires '/' !in s
    ensures var v := Split(path); Split(path + s) == v[..|v| - 1] + [v[|v| - 1] + s]
    decreases |s|
  {
    var v := Split(path);
    if s == "" {
      assert path + s == path && v[|v| - 1] + s == v[|v| - 1];
    } else {
      var front, c := s[..|s| - 1], s[|s| - 1];
      SplitPiece(path, front);
      assert (path + s)[..|path + s| - 1] == path + front;
      assert v[|v| - 1] + s == v[|v| - 1] + front + [c];
    }
  }

  lemma SplitEmpty()
    ensures Split("") == [""]
  {
  }

  lemma SplitSlash(path: string)
    ensures Split(path + "/") == Split(path) + [""]
  {
    assert (path + "/")[..|path|] == path;
  }

  /** Splitting undoes joining, when no piece holds a separator. */
  lemma {:induction false} SplitJoin(names: seq<string>)
    requires names != [] && forall i :: 0 <= i < |names| ==> '/' !in names[i]
    ensures Split(Join(names)) == names
  {
    hide Split;
    var last := names[|names| - 1];
    if |names| == 1 {
      SplitPiece("", last);
      SplitEmpty();
      assert "" + last == last && names == [last];
    } else {
      var front := names[..|names| - 1];
      SplitJoin(front);
      var j := Join(front);
      SplitSlash(j);
      SplitPiece(j + "/", last);
      assert "" + last == last;
      assert names == front + [last];
    }
  }

  /** The names from the root to `n`; the root's is empty. */
  ghost function Names(t: Tree, n: nat): (v: seq<string>)
    requires Ok(t) && n in t.name
    ensures v != []
    decreases t.depth[n]
  {
    assert NodeOk(t, n);
    if n == t.root then [""] else Names(t, t.father[n]) + [t.name[n]]
  }

  lemma {:induction false} NamesArePlain(t: Tree, n: nat)
    requires Ok(t) && n in t.name
    ensures var v := Names(t, n); v[0] == "" && (|v| == 1 <==> n == t.root) && forall i :: 0 < i < |v| ==> Plain(v[i])
    decreases t.depth[n]
  {
    hide KindOf;
    assert NodeOk(t, n);
    if n != t.root {
      NamesArePlain(t, t.father[n]);
      assert KidsOk(t, t.father[n]);
    }
  }

  /** Walking the names from the root arrives at `n`. */
  lemma {:induction false} NamesLead(t: Tree, n: nat)
    requires Ok(t) && n in t.name
    ensures RawWalk(t, t.root, Names(t, n)) == Node(n)
    decreases t.depth[n]
  {
    hide RawWalk, Names;
    NamesUnfold(t, n);
    if n == t.root {
      RootWalk(t);
      assert NodeOk(t, n);
    } else {
      var f := t.father[n];
      NamesLead(t, f);
      var v := Names(t, f);
      assert (v + [t.name[n]])[..|v|] == v;
      RawSnoc(t, t.root, v + [t.name[n]]);
      assert NodeOk(t, n) && KidsOk(t, f);
    }
  }

  /** `get_cwd` */
  ghost function Cwd(t: Tree, n: nat): string
    requires Ok(t) && n in t.name
  {
    var v := Names(t, n);
    if |v| == 1 then "/" else Join(v)
  }

  /** `cd_path` */
  function CdPath(t: Tree, n: nat, path: string): Found {
    Walk(t, if path != "" && path[0] == '/' then t.root else n, Normal(Split(path)))
  }

  lemma {:induction false} SplitPlain(s: string)
    requires '/' !in s
    ensures Split(s) == [s]
  {
    SplitPiece("", s);
    SplitEmpty();
    assert "" + s == s;
  }

  /** A path of one component, from node `n`. */
  lemma CdOne(t: Tree, n: nat, s: string)
    requires '/' !in s
    ensures s == "" || s == "." ==> CdPath(t, n, s) == Node(n)
    ensures s == ".." ==> CdPath(t, n, s) == Node(if n in t.father then t.father[n] else n)
    ensures s != "" && s != "." && s != ".." ==> CdPath(t, n, s) == Lookup(t, n, s)
  {
    hide Split;
    SplitPlain(s);
    assert [s][..0] == [];
    assert Normal([s]) == Push([], s);
    assert Walk(t, n, []) == Node(n);
    if s != "" && s != "." {
      WalkComponent(t, n, [], s);
      assert [] + [s] == [s];
    }
  }

  lemma {:induction false} JoinStarts(names: seq<string>)
    requires |names| > 1 && names[0] == ""
    ensures Join(names) != "" && Join(names)[0] == '/'
  {
    if |names| > 2 {
      JoinStarts(names[..|names| - 1]);
    } else {
      assert names[..1] == [""];
    }
  }

  /** The path of a node leads back to it, from anywhere. */
  lemma CwdLeadsBack(t: Tree, n: nat, from: nat)
    requires Ok(t) && n in t.name
    ensures CdPath(t, from, Cwd(t, n)) == Node(n)
  {
    hide KindOf, Ok, Join, Split, RawWalk, Walk, Normal;
    var v := Names(t, n);
    NamesArePlain(t, n);
    NamesLead(t, n);
    RootStands(t);
    if |v| == 1 {
      SlashIsRoot(t);
    } else {
      JoinStarts(v);
      assert forall i :: 0 <= i < |v| ==> '/' !in v[i];
      SplitJoin(v);
      NormalKeepsWalk(t, t.root, v);
    }
  }

  lemma RootWalk(t: Tree)
    ensures RawWalk(t, t.root, [""]) == Node(t.root)
  {
    assert [""][..0] == [];
  }

  lemma RootStands(t: Tree)
    requires Ok(t)
    ensures t.root in t.name
  {
  }

  lemma SlashIsRoot(t: Tree)
    ensures Walk(t, t.root, Normal(Split("/"))) == Node(t.root)
  {
    assert "/"[..0] == "";
    assert Split("") == [""];
    assert Split("/") == ["", ""];
    assert ["", ""][..1] == [""] && [""][..0] == [];
    assert Normal([""]) == [];
    assert Normal(["", ""]) == [];
  }

  // ----- The directory tree -----

  class DirectoryTree {
    const tree: Tree // `tree.kids` is what `open_subfile` lists
    var cached: map<nat, map<string, nat>>

    /** What is cached is what the file system lists. */
    ghost predicate Valid()
      reads this
    {
      Ok(tree) && (forall n :: n in cached ==> n in tree.kids && cached[n] == tree.kids[n])
    }

    constructor (t: Tree)
      requires Ok(t)
      ensures Valid() && tree == t && cached == map[]
    {
      tree, cached := t, map[];
    }

    method CacheAllSubfile(n: nat) returns (ok: bool)
      requires Valid()
      modifies this
      ensures Valid() && (ok <==> n in tree.kids) && (ok ==> n in cached)
      ensures forall m :: m in old(cached) ==> m in cached
    {
      hide Ok;
      if n in cached {
        return true;
      }
      if n !in tree.kids {
        return false;
      }
      cached := cached[n := tree.kids[n]];
      return true;
    }

    method TryToOpenSubfile(n: nat, s: string) returns (r: Found)
      requires Valid() && KindOf(s) != Up
      modifies this
      ensures Valid() && r == Step(tree, n, s)
      ensures r == Lookup(tree, n, s)
    {
      hide Ok;
      var ok := CacheAllSubfile(n);
      if !ok {
        return NotDir;
      }
      if s in cached[n] {
        return Node(cached[n][s]);
      }
      return NoEntry;
    }

    method CdComp(n: nat, v: seq<string>) returns (r: Found)
      requires Valid()
      modifies this
      ensures Valid() && r == Walk(tree, n, v)
    {
      hide Ok, KindOf, Step, Walk;
      var at := n;
      WalkNowhere(tree, n, v);
      for i := 0 to |v|
        invariant Valid() && Walk(tree, n, v[..i]) == Node(at)
      {
        WalkPrefix(tree, n, v, i);
        if KindOf(v[i]) == Up {
          UpIs(tree, at, v[i]);
          if at in tree.father {
            at := tree.father[at];
          }
          continue;
        }
        var child := TryToOpenSubfile(at, v[i]);
        if !child.Node? {
          WalkFails(tree, n, v, i + 1);
          return child;
        }
        at := child.n;
      }
      assert v[..|v|] == v;
      return Node(at);
    }

    method CdPathFrom(n: nat, path: string) returns (r: Found)
      requires Valid()
      modifies this
      ensures Valid() && r == CdPath(tree, n, path)
      ensures n in tree.name ==>
                var raw := RawWalk(tree, if path != "" && path[0] == '/' then tree.root else n, Split(path));
                raw.Node? ==> r == raw
    {
      hide Ok, KindOf, Walk, Normal, Split, RawWalk;
      ghost var from := if path != "" && path[0] == '/' then tree.root else n;
      if n in tree.name && RawWalk(tree, from, Split(path)).Node? {
        RootStands(tree);
        NormalKeepsWalk(tree, from, Split(path));
      }
      var v := ParseDirPath(path);
      var start := if path != "" && path[0] == '/' then tree.root else n;
      r := CdComp(start, v);
    }

    method GetCwd(n: nat) returns (path: string)
      requires Valid() && n in tree.name
      ensures path == Cwd(tree, n)
    {
      hide Ok, Join, Names;
      var reversed: seq<string> := [];
      var at := n;
      ghost var down: seq<string> := [];
      NamesUnfold(tree, at);
      assert Names(tree, n) + [] == Names(tree, n);
      while at in tree.father
        invariant at in tree.name && at in tree.depth
        invariant Names(tree, n) == Names(tree, at) + down && reversed == Reversed(down)
        decreases tree.depth[at]
      {
        NamesUnfold(tree, at);
        ReversedCons(tree.name[at], down);
        NamesShift(Names(tree, tree.father[at]), tree.name[at], down);
        reversed := reversed + [tree.name[at]];
        down := [tree.name[at]] + down;
        at := tree.father[at];
      }
      NamesUnfold(tree, at);
      ReversedCons(tree.name[at], down);
      reversed := reversed + [tree.name[at]];
      var pathv := Reversed(reversed);
      ReversedTwice([tree.name[at]] + down);
      if |pathv| == 1 {
        path := "/";
      } else {
        path := Join(pathv);
      }
    }
  }

  lemma NamesShift(a: seq<string>, s: string, b: seq<string>)
    ensures a + [s] + b == a + ([s] + b)
  {
  }

  lemma NamesUnfold(t: Tree, n: nat)
    requires Ok(t) && n in t.name
    ensures n in t.depth && (n in t.father <==> n != t.root)
    ensures n == t.root ==> Names(t, n) == [t.name[n]]
    ensures n != t.root ==>
              && t.father[n] in t.name && t.father[n] in t.depth && t.depth[t.father[n]] < t.depth[n]
              && Names(t, n) == Names(t, t.father[n]) + [t.name[n]]
  {
    assert NodeOk(t, n);
  }

  method ParseDirPath(path: string) returns (v: seq<string>)
    ensures v == Normal(Split(path))
    ensures forall i :: 0 <= i < |v| ==> v[i] != "" && v[i] != "."
    ensures forall i, j :: 0 <= i < j < |v| && v[j] == ".." ==> v[i] == ".."
  {
    hide KindOf, Normal, Split;
    var parts := Split(path);
    v := [];
    NormalNone(parts);
    for i := 0 to |parts|
      invariant v == Normal(parts[..i])
    {
      NormalSnoc(parts[..i + 1]);
      assert parts[..i + 1][..i] == parts[..i];
      v := Push(v, parts[i]);
    }
    assert parts[..|parts|] == parts;
    NormalParts(parts);
  }

  lemma NormalParts(v: seq<string>)
    ensures forall i :: 0 <= i < |Normal(v)| ==> Normal(v)[i] != "" && Normal(v)[i] != "."
    ensures forall i, j :: 0 <= i < j < |Normal(v)| && Normal(v)[j] == ".." ==> Normal(v)[i] == ".."
  {
    hide Normal;
    NormalShape(v);
  }

  lemma NormalNone(v: seq<string>)
    ensures v[..0] == [] && Normal([]) == []
  {
  }

  lemma WalkNowhere(t: Tree, n: nat, v: seq<string>)
    ensures v[..0] == [] && Walk(t, n, []) == Node(n)
  {
  }

  lemma WalkPrefix(t: Tree, n: nat, v: seq<string>, i: nat)
    requires i < |v|
    ensures Walk(t, n, v[..i + 1]) == match Walk(t, n, v[..i]) case Node(m) => Step(t, m, v[i]) case e => e
  {
    assert v[..i + 1] == v[..i] + [v[i]];
    WalkSnoc(t, n, v[..i], v[i]);
  }

  lemma UpIs(t: Tree, n: nat, s: string)
    requires KindOf(s) == Up
    ensures Step(t, n, s) == Node(if n in t.father then t.father[n] else n)
  {
  }

  lemma {:induction false} WalkFails(t: Tree, n: nat, v: seq<string>, i: nat)
    requires i <= |v| && !Walk(t, n, v[..i]).Node?
    ensures Walk(t, n, v) == Walk(t, n, v[..i])
    decreases |v| - i
  {
    if i < |v| {
      WalkPrefix(t, n, v, i);
      WalkFails(t, n, v, i + 1);
    } else {
      assert v[..i] == v;
    }
  }
}
