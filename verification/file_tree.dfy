/** The tree of folders and files that the media server shows for a torrent. */
module FileTree {
  import opened Wrappers

  datatype Node = Node(title: string, parent: Option<nat>, children: seq<nat>, file: Option<nat>)

  /** A file's path components, or `None` if they are not valid text. */
  type FilePath = Option<seq<string>>

  predicate IsPlaced(path: FilePath) {
    path.Some? && |path.value| > 0
  }

  // ---------- what a tree is ----------

  predicate IsDir(nodes: seq<Node>, i: nat) {
    i < |nodes| && nodes[i].file.None?
  }

  /** The root has no parent; every other node has a smaller-numbered directory as its parent. */
  predicate ParentsOk(nodes: seq<Node>) {
    && |nodes| > 0 && nodes[0].parent.None? && nodes[0].file.None?
    && forall i :: 0 < i < |nodes| ==>
         nodes[i].parent.Some? && nodes[i].parent.value < i && IsDir(nodes, nodes[i].parent.value)
  }

  predicate Increasing(ids: seq<nat>) {
    forall a, b :: 0 <= a < b < |ids| ==> ids[a] < ids[b]
  }

  /** A node lists exactly the nodes whose parent it is, each once, in order of creation. */
  ghost predicate ChildrenOk(nodes: seq<Node>) {
    forall p :: 0 <= p < |nodes| ==>
      && Increasing(nodes[p].children)
      && (forall c: nat :: c in nodes[p].children <==> c < |nodes| && nodes[c].parent == Some(p))
  }

  /** Directories are unique per parent and name. */
  predicate DirsUnique(nodes: seq<Node>) {
    forall i, j | 0 < i < |nodes| && 0 < j < |nodes| && IsDir(nodes, i) && IsDir(nodes, j) ::
      nodes[i].parent == nodes[j].parent && nodes[i].title == nodes[j].title ==> i == j
  }

  /** Titles from below the root down to node `i`. */
  function PathOf(nodes: seq<Node>, i: nat): seq<string>
    requires ParentsOk(nodes) && i < |nodes|
  {
    if i == 0 then [] else PathOf(nodes, nodes[i].parent.value) + [nodes[i].title]
  }

  predicate IsLeafOf(nodes: seq<Node>, i: nat, f: nat) {
    i < |nodes| && nodes[i].file == Some(f)
  }

  /** Among the first `k` files, exactly those with a usable path have a leaf; it is unique, and the
      titles on the way to it spell the path. */
  ghost predicate LeavesOk(nodes: seq<Node>, files: seq<FilePath>, k: nat)
    requires ParentsOk(nodes) && k <= |files|
  {
    && (forall i :: 0 <= i < |nodes| && nodes[i].file.Some? ==>
          && nodes[i].file.value < k && IsPlaced(files[nodes[i].file.value])
          && PathOf(nodes, i) == files[nodes[i].file.value].value)
    && (forall i, j :: 0 <= i < |nodes| && 0 <= j < |nodes| ==>
          nodes[i].file.Some? && nodes[i].file == nodes[j].file ==> i == j)
    && (forall f :: 0 <= f < k && IsPlaced(files[f]) ==> exists i :: IsLeafOf(nodes, i, f))
  }

  /** Every directory below the root is on the way to some file. */
  ghost predicate DirsNeeded(nodes: seq<Node>, files: seq<FilePath>)
    requires ParentsOk(nodes)
  {
    forall i :: 0 < i < |nodes| && nodes[i].file.None? ==> exists f :: 0 <= f < |files| && OnTheWay(nodes, i, files[f])
  }

  predicate OnTheWay(nodes: seq<Node>, i: nat, path: FilePath)
    requires ParentsOk(nodes) && i < |nodes|
  {
    path.Some? && PathOf(nodes, i) < path.value
  }

  ghost predicate IsTree(nodes: seq<Node>, files: seq<FilePath>, k: nat) {
    && k <= |files|
    && ParentsOk(nodes) && ChildrenOk(nodes) && DirsUnique(nodes)
    && LeavesOk(nodes, files, k) && DirsNeeded(nodes, files)
  }

  // ---------- adding a node ----------

  /** Push a node and add it to its parent's children. */
  function AddNode(nodes: seq<Node>, parent: nat, title: string, file: Option<nat>): (r: seq<Node>)
    requires parent < |nodes|
  {
    var pushed := nodes + [Node(title, Some(parent), [], file)];
    pushed[parent := pushed[parent].(children := pushed[parent].children + [|nodes|])]
  }

  /** All nodes of `nodes` keep title, parent and file in `r`, and one more node follows them. */
  predicate Extends(nodes: seq<Node>, r: seq<Node>, parent: nat, title: string, file: Option<nat>) {
    && |r| == |nodes| + 1
    && (forall i :: 0 <= i < |nodes| ==>
          r[i].title == nodes[i].title && r[i].parent == nodes[i].parent && r[i].file == nodes[i].file)
    && r[|nodes|].title == title && r[|nodes|].parent == Some(parent) && r[|nodes|].file == file
  }

  lemma AddExtends(nodes: seq<Node>, parent: nat, title: string, file: Option<nat>)
    requires parent < |nodes|
    ensures Extends(nodes, AddNode(nodes, parent, title, file), parent, title, file)
  {
  }

  lemma ExtendsParents(nodes: seq<Node>, r: seq<Node>, parent: nat, title: string, file: Option<nat>)
    requires ParentsOk(nodes) && IsDir(nodes, parent) && Extends(nodes, r, parent, title, file)
    ensures ParentsOk(r)
  {
    forall i | 0 < i < |r| ensures r[i].parent.Some? && r[i].parent.value < i && IsDir(r, r[i].parent.value) {
      if i < |nodes| {
        assert IsDir(nodes, nodes[i].parent.value);
      }
    }
  }

  lemma AddChildren(nodes: seq<Node>, parent: nat, title: string, file: Option<nat>)
    requires ChildrenOk(nodes) && ParentsOk(nodes) && IsDir(nodes, parent)
    ensures ChildrenOk(AddNode(nodes, parent, title, file))
  {
    var r, n := AddNode(nodes, parent, title, file), |nodes|;
    AddExtends(nodes, parent, title, file);
    forall p | 0 <= p < |r|
      ensures Increasing(r[p].children)
      ensures forall c: nat :: c in r[p].children <==> c < |r| && r[c].parent == Some(p)
    {
      hide ParentsOk;
      if p == parent {
        ChildAppended(nodes, r, p, n);
      } else if p < n {
        assert r[p].children == nodes[p].children;
        assert forall c: nat :: c in nodes[p].children <==> c < n && nodes[c].parent == Some(p);
      } else {
        NoChildYet(nodes, r, n, parent);
      }
    }
  }

  lemma ChildAppended(nodes: seq<Node>, r: seq<Node>, p: nat, n: nat)
    requires n == |nodes| && |r| == n + 1 && p < n && r[p].children == nodes[p].children + [n]
    requires Increasing(nodes[p].children)
    requires forall c: nat :: c in nodes[p].children <==> c < n && nodes[c].parent == Some(p)
    requires (forall i :: 0 <= i < n ==> r[i].parent == nodes[i].parent) && r[n].parent == Some(p)
    ensures Increasing(r[p].children) && forall c: nat :: c in r[p].children <==> c < |r| && r[c].parent == Some(p)
  {
    forall a, b | 0 <= a < b < |r[p].children| ensures r[p].children[a] < r[p].children[b] {
      if b == |nodes[p].children| {
        assert nodes[p].children[a] in nodes[p].children;
      }
    }
  }

  lemma NoChildYet(nodes: seq<Node>, r: seq<Node>, n: nat, parent: nat)
    requires ParentsOk(nodes) && n == |nodes| && parent < n && |r| == n + 1
    requires (forall i :: 0 <= i < n ==> r[i].parent == nodes[i].parent) && r[n].parent == Some(parent)
    ensures forall c :: 0 <= c < |r| ==> r[c].parent != Some(n)
  {
  }

  lemma {:induction false} ExtendsPath(nodes: seq<Node>, r: seq<Node>, parent: nat, title: string, file: Option<nat>,
                                       i: nat)
    requires ParentsOk(nodes) && ParentsOk(r) && Extends(nodes, r, parent, title, file) && i < |nodes|
    ensures PathOf(r, i) == PathOf(nodes, i)
    decreases i
  {
    if i > 0 {
      ExtendsPath(nodes, r, parent, title, file, nodes[i].parent.value);
    }
  }

  /** An added node keeps parents, children lists and paths, and hangs below its parent. */
  lemma Added(nodes: seq<Node>, parent: nat, title: string, file: Option<nat>)
    requires ParentsOk(nodes) && ChildrenOk(nodes) && IsDir(nodes, parent)
    ensures var r := AddNode(nodes, parent, title, file);
            && Extends(nodes, r, parent, title, file) && ParentsOk(r) && ChildrenOk(r)
            && (forall i :: 0 <= i < |nodes| ==> PathOf(r, i) == PathOf(nodes, i))
            && PathOf(r, |nodes|) == PathOf(nodes, parent) + [title]
  {
    hide AddNode; hide ChildrenOk;
    var r := AddNode(nodes, parent, title, file);
    AddExtends(nodes, parent, title, file);
    ExtendsParents(nodes, r, parent, title, file);
    AddChildren(nodes, parent, title, file);
    forall i | 0 <= i < |nodes| ensures PathOf(r, i) == PathOf(nodes, i) {
      ExtendsPath(nodes, r, parent, title, file, i);
    }
    PathStep(r, |nodes|);
  }

  /** The cache knows exactly the directories below the root, by parent and name. */
  ghost predicate CacheOk(nodes: seq<Node>, cache: map<(nat, string), nat>) {
    && (forall key :: key in cache ==>
          0 < cache[key] < |nodes| && IsDir(nodes, cache[key]) &&
          nodes[cache[key]].parent == Some(key.0) && nodes[cache[key]].title == key.1)
    && (forall i :: 0 < i < |nodes| && IsDir(nodes, i) && nodes[i].parent.Some? ==> CachedAs(nodes, cache, i))
  }

  predicate CachedAs(nodes: seq<Node>, cache: map<(nat, string), nat>, i: nat)
    requires i < |nodes| && nodes[i].parent.Some?
  {
    var key := (nodes[i].parent.value, nodes[i].title);
    key in cache && cache[key] == i
  }

  lemma CacheGivesUnique(nodes: seq<Node>, cache: map<(nat, string), nat>)
    requires ParentsOk(nodes) && CacheOk(nodes, cache)
    ensures DirsUnique(nodes)
  {
    forall i, j | 0 < i < |nodes| && 0 < j < |nodes| && IsDir(nodes, i) && IsDir(nodes, j) &&
                  nodes[i].parent == nodes[j].parent && nodes[i].title == nodes[j].title
      ensures i == j
    {
      assert CachedAs(nodes, cache, i) && CachedAs(nodes, cache, j);
    }
  }

  lemma ExtendsCache(nodes: seq<Node>, r: seq<Node>, parent: nat, title: string, file: Option<nat>,
                     cache: map<(nat, string), nat>)
    requires ParentsOk(nodes) && CacheOk(nodes, cache) && Extends(nodes, r, parent, title, file)
    requires file.None? ==> (parent, title) !in cache
    ensures CacheOk(r, if file.None? then cache[(parent, title) := |nodes|] else cache)
  {
    assert |nodes| > 0;
    hide ParentsOk;
    var cache' := if file.None? then cache[(parent, title) := |nodes|] else cache;
    forall i | 0 < i < |r| && IsDir(r, i) && r[i].parent.Some? ensures CachedAs(r, cache', i) {
      if i < |nodes| {
        assert IsDir(nodes, i) && CachedAs(nodes, cache, i);
      }
    }
    forall key | key in cache'
      ensures 0 < cache'[key] < |r| && IsDir(r, cache'[key]) && r[cache'[key]].parent == Some(key.0) &&
                r[cache'[key]].title == key.1
    {
      if key in cache && (file.Some? || key != (parent, title)) {
        assert IsDir(nodes, cache[key]);
      }
    }
  }

  /** Directories and leaves with their paths, as `nodes` had them. */
  lemma ExtendsNeeded(nodes: seq<Node>, r: seq<Node>, parent: nat, title: string, file: Option<nat>,
                      files: seq<FilePath>)
    requires ParentsOk(nodes) && ParentsOk(r) && Extends(nodes, r, parent, title, file) && DirsNeeded(nodes, files)
    requires forall i :: 0 <= i < |nodes| ==> PathOf(r, i) == PathOf(nodes, i)
    requires file.None? ==> exists f :: 0 <= f < |files| && OnTheWay(r, |nodes|, files[f])
    ensures DirsNeeded(r, files)
  {
    hide PathOf; hide ParentsOk;
    forall i | 0 < i < |r| && r[i].file.None? ensures exists f :: 0 <= f < |files| && OnTheWay(r, i, files[f]) {
      if i < |nodes| {
        var f :| 0 <= f < |files| && OnTheWay(nodes, i, files[f]);
        assert OnTheWay(r, i, files[f]);
      }
    }
  }

  lemma ExtendsLeaves(nodes: seq<Node>, r: seq<Node>, parent: nat, title: string, file: Option<nat>,
                      files: seq<FilePath>, k: nat)
    requires ParentsOk(nodes) && ParentsOk(r) && Extends(nodes, r, parent, title, file)
    requires k < |files| && LeavesOk(nodes, files, k)
    requires forall i :: 0 <= i < |nodes| ==> PathOf(r, i) == PathOf(nodes, i)
    requires file.Some? ==> file.value == k && IsPlaced(files[k]) && PathOf(r, |nodes|) == files[k].value
    ensures LeavesOk(r, files, if file.None? then k else k + 1)
  {
    hide PathOf; hide ParentsOk;
    forall f | 0 <= f < (if file.None? then k else k + 1) && IsPlaced(files[f]) ensures exists i :: IsLeafOf(r, i, f) {
      if f < k {
        var i :| IsLeafOf(nodes, i, f);
        assert IsLeafOf(r, i, f);
      } else {
        assert IsLeafOf(r, |nodes|, f);
      }
    }
  }

  lemma AddDir(nodes: seq<Node>, files: seq<FilePath>, k: nat, cache: map<(nat, string), nat>, parent: nat,
               title: string, path: seq<string>)
    requires IsTree(nodes, files, k) && k < |files| && files[k] == Some(path) && CacheOk(nodes, cache)
    requires IsDir(nodes, parent) && (parent, title) !in cache
    requires PathOf(nodes, parent) + [title] < path
    ensures var r := AddNode(nodes, parent, title, None);
            && IsTree(r, files, k) && CacheOk(r, cache[(parent, title) := |nodes|])
            && PathOf(r, |nodes|) == PathOf(nodes, parent) + [title] && IsDir(r, |nodes|)
            && r[0].title == nodes[0].title
  {
    hide PathOf; hide ChildrenOk; hide AddNode; hide ParentsOk; hide DirsUnique; hide DirsNeeded; hide LeavesOk;
    hide CacheOk;
    var r := AddNode(nodes, parent, title, None);
    Added(nodes, parent, title, None);
    ExtendsCache(nodes, r, parent, title, None, cache);
    CacheGivesUnique(r, cache[(parent, title) := |nodes|]);
    assert OnTheWay(r, |nodes|, files[k]);
    ExtendsNeeded(nodes, r, parent, title, None, files);
    ExtendsLeaves(nodes, r, parent, title, None, files, k);
  }

  lemma AddLeaf(nodes: seq<Node>, files: seq<FilePath>, k: nat, cache: map<(nat, string), nat>, parent: nat,
                path: seq<string>)
    requires IsTree(nodes, files, k) && k < |files| && files[k] == Some(path) && CacheOk(nodes, cache)
    requires IsDir(nodes, parent) && |path| > 0 && PathOf(nodes, parent) == path[..|path| - 1]
    ensures var r := AddNode(nodes, parent, path[|path| - 1], Some(k));
            IsTree(r, files, k + 1) && CacheOk(r, cache) && r[0].title == nodes[0].title
  {
    hide PathOf; hide ChildrenOk; hide AddNode; hide ParentsOk; hide DirsUnique; hide DirsNeeded; hide LeavesOk;
    hide CacheOk;
    var title := path[|path| - 1];
    var r := AddNode(nodes, parent, title, Some(k));
    Added(nodes, parent, title, Some(k));
    assert path == path[..|path| - 1] + [title];
    ExtendsCache(nodes, r, parent, title, Some(k), cache);
    CacheGivesUnique(r, cache);
    ExtendsNeeded(nodes, r, parent, title, Some(k), files);
    ExtendsLeaves(nodes, r, parent, title, Some(k), files, k);
  }

  lemma SkipFile(nodes: seq<Node>, files: seq<FilePath>, k: nat)
    requires IsTree(nodes, files, k) && k < |files| && !IsPlaced(files[k])
    ensures IsTree(nodes, files, k + 1)
  {
  }

  // ---------- building ----------

  /** Build the tree of a torrent with several files: one leaf per file, folders shared by name. */
  method Build(rootTitle: string, files: seq<FilePath>) returns (nodes: seq<Node>)
    ensures IsTree(nodes, files, |files|) && nodes[0].title == rootTitle
  {
    hide PathOf; hide ChildrenOk; hide AddNode;
    nodes := [Node(rootTitle, None, [], None)];
    var cache: map<(nat, string), nat> := map[];
    assert ChildrenOk(nodes) by { RootOnly(nodes); }
    for fid := 0 to |files|
      invariant IsTree(nodes, files, fid) && CacheOk(nodes, cache) && nodes[0].title == rootTitle
    {
      if files[fid].None? || |files[fid].value| == 0 {
        SkipFile(nodes, files, fid);
      } else {
        var components := files[fid].value;
        var parent: nat := 0;
        RootPath(nodes);
        var i: nat := 0;
        while i < |components| - 1
          invariant 0 <= i < |components|
          invariant IsTree(nodes, files, fid) && CacheOk(nodes, cache) && nodes[0].title == rootTitle
          invariant IsDir(nodes, parent) && PathOf(nodes, parent) == components[..i]
        {
          var component := components[i];
          assert components[..i] + [component] == components[..i + 1];
          if (parent, component) in cache {
            PathStep(nodes, cache[(parent, component)]);
            parent := cache[(parent, component)];
          } else {
            var id := |nodes|;
            AddDir(nodes, files, fid, cache, parent, component, components);
            nodes := AddNode(nodes, parent, component, None);
            cache := cache[(parent, component) := id];
            parent := id;
          }
          i := i + 1;
        }
        AddLeaf(nodes, files, fid, cache, parent, components);
        nodes := AddNode(nodes, parent, components[i], Some(fid));
      }
    }
  }

  // ---------- choosing the branch ----------

  /** A file name as stored: its components, of which those that are not text are `None`. */
  type FileName = seq<Option<string>>

  function PathFrom(name: FileName): FilePath {
    if forall i :: 0 <= i < |name| ==> name[i].Some?
    then Some(seq(|name|, i requires 0 <= i < |name| => name[i].value)) else None
  }

  function PathsFrom(names: seq<FileName>): (paths: seq<FilePath>)
    ensures |paths| == |names|
  {
    seq(|names|, f requires 0 <= f < |names| => PathFrom(names[f]))
  }

  function Components(names: seq<FileName>): FileName {
    if |names| == 0 then [] else names[0] + Components(names[1..])
  }

  /** `is_single_file_at_root`: all names together have at most one component. */
  predicate IsSingleFileAtRoot(names: Option<seq<FileName>>) {
    names.None? || |Components(names.value)| <= 1
  }

  /** A file has a usable path exactly if all its components are text, and then the path spells them. */
  lemma PathIsName(name: FileName, path: seq<string>)
    ensures PathFrom(name) == Some(path) <==>
            |path| == |name| && forall i :: 0 <= i < |name| ==> name[i] == Some(path[i])
  {
    if |path| == |name| && forall i :: 0 <= i < |name| ==> name[i] == Some(path[i]) {
      assert PathFrom(name).value == path;
    }
  }

  predicate HasComponent(names: seq<FileName>, f: nat, i: nat) {
    f < |names| && i < |names[f]|
  }

  /** The branch for a single node is taken if and only if no two components exist in all names. */
  lemma {:induction false} SingleExact(names: seq<FileName>)
    ensures IsSingleFileAtRoot(Some(names)) <==>
            forall f: nat, i: nat, g: nat, j: nat ::
              HasComponent(names, f, i) && HasComponent(names, g, j) ==> f == g && i == j
    ensures Components(names) == [] <==> forall f: nat, i: nat :: !HasComponent(names, f, i)
  {
    if |names| > 0 {
      var rest := names[1..];
      SingleExact(rest);
      assert forall f: nat, i: nat :: HasComponent(rest, f, i) <==> HasComponent(names, f + 1, i);
      assert forall i: nat :: HasComponent(names, 0, i) <==> i < |names[0]|;
      if |Components(names)| <= 1 {
        forall f: nat, i: nat, g: nat, j: nat | HasComponent(names, f, i) && HasComponent(names, g, j)
          ensures f == g && i == j
        {
          assert f > 0 ==> HasComponent(rest, f - 1, i);
          assert g > 0 ==> HasComponent(rest, g - 1, j);
        }
      } else if |names[0]| >= 2 {
        assert HasComponent(names, 0, 0) && HasComponent(names, 0, 1);
      } else if |names[0]| == 1 {
        var f: nat, i: nat :| HasComponent(rest, f, i);
        assert HasComponent(names, 0, 0) && HasComponent(names, f + 1, i);
      } else {
        var f: nat, i: nat, g: nat, j: nat :| HasComponent(rest, f, i) && HasComponent(rest, g, j) && !(f == g &&
          i == j);
        assert HasComponent(names, f + 1, i) && HasComponent(names, g + 1, j);
      }
      if Components(names) == [] {
        forall f: nat, i: nat ensures !HasComponent(names, f, i) {
          assert f > 0 ==> !HasComponent(rest, f - 1, i);
        }
      }
      if forall f: nat, i: nat :: !HasComponent(names, f, i) {
        forall f: nat, i: nat ensures !HasComponent(rest, f, i) {
          assert !HasComponent(names, f + 1, i);
        }
        assert !HasComponent(names, 0, 0);
      }
    }
  }

  datatype TreeError = BadFileList | NoFile | NoComponent | NotText

  /** The tree of any torrent. `names` is `None` if the file list is malformed; `title` is the torrent's name, or
      `None` if it has one that is not text. */
  method BuildTree(title: Option<string>, names: Option<seq<FileName>>) returns (r: Result<seq<Node>, TreeError>)
    ensures IsSingleFileAtRoot(names) ==>
              if names.None? then r == Failure(BadFileList)
              else if names.value == [] then r == Failure(NoFile)
              else if names.value[0] == [] then r == Failure(NoComponent)
              else match names.value[0][0]
                case None => r == Failure(NotText)
                case Some(text) => r == Success([Node(text, None, [], Some(0))])
    ensures !IsSingleFileAtRoot(names) ==>
              if title.None? then r == Failure(NotText)
              else
                && r.Success? && IsTree(r.value, PathsFrom(names.value), |names.value|)
                && r.value[0].title == title.value
  {
    if IsSingleFileAtRoot(names) {
      if names.None? {
        return Failure(BadFileList);
      }
      if |names.value| == 0 {
        return Failure(NoFile);
      }
      var name := names.value[0];
      if |name| == 0 {
        return Failure(NoComponent);
      }
      assert |name| == 1;
      var last := name[|name| - 1];
      return if last.None? then Failure(NotText) else Success([Node(last.value, None, [], Some(0))]);
    }
    if title.None? {
      return Failure(NotText);
    }
    var nodes := Build(title.value, PathsFrom(names.value));
    return Success(nodes);
  }

  /** In the single node of a torrent with a single file at its root, the node is that file: no other file
      has a name. */
  lemma {:induction false} SingleFileIsTheOnlyOne(names: seq<FileName>, f: nat)
    requires IsSingleFileAtRoot(Some(names)) && 0 < f < |names| && names[0] != []
    ensures names[f] == []
  {
    NamedFileCounts(names[1..], f - 1);
  }

  lemma {:induction false} NamedFileCounts(names: seq<FileName>, f: nat)
    requires f < |names|
    ensures |names[f]| <= |Components(names)|
  {
    if f > 0 {
      NamedFileCounts(names[1..], f - 1);
    }
  }

  lemma RootOnly(nodes: seq<Node>)
    requires |nodes| == 1 && nodes[0].parent.None? && nodes[0].children == []
    ensures ChildrenOk(nodes)
  {
  }

  lemma RootPath(nodes: seq<Node>)
    requires ParentsOk(nodes)
    ensures PathOf(nodes, 0) == []
  {
  }

  lemma PathStep(nodes: seq<Node>, i: nat)
    requires ParentsOk(nodes) && 0 < i < |nodes|
    ensures PathOf(nodes, i) == PathOf(nodes, nodes[i].parent.value) + [nodes[i].title]
  {
  }

  /** The folders form a trie: a path below the root belongs to at most one folder. */
  lemma {:induction false} FolderPathsDiffer(nodes: seq<Node>, i: nat, j: nat)
    requires ParentsOk(nodes) && DirsUnique(nodes) && IsDir(nodes, i) && IsDir(nodes, j)
    requires PathOf(nodes, i) == PathOf(nodes, j)
    ensures i == j
    decreases i + j
  {
    if i > 0 && j > 0 {
      var p, q := nodes[i].parent.value, nodes[j].parent.value;
      assert PathOf(nodes, p) == PathOf(nodes, i)[..|PathOf(nodes, i)| - 1];
      assert PathOf(nodes, q) == PathOf(nodes, j)[..|PathOf(nodes, j)| - 1];
      FolderPathsDiffer(nodes, p, q);
      assert nodes[i].title == PathOf(nodes, i)[|PathOf(nodes, i)| - 1];
    }
  }

  /** Walking down by names from the root finds the file: for every placed file there is a node whose
      path is the file's path, and it is the only leaf of that file. */
  lemma FileIsFound(nodes: seq<Node>, files: seq<FilePath>, f: nat) returns (leaf: nat)
    requires IsTree(nodes, files, |files|) && f < |files| && IsPlaced(files[f])
    ensures IsLeafOf(nodes, leaf, f) && PathOf(nodes, leaf) == files[f].value && nodes[leaf].children == []
    ensures forall i :: IsLeafOf(nodes, i, f) ==> i == leaf
  {
    leaf :| IsLeafOf(nodes, leaf, f);
    NoFileHasChildren(nodes, leaf);
  }

  lemma NoFileHasChildren(nodes: seq<Node>, leaf: nat)
    requires ParentsOk(nodes) && ChildrenOk(nodes) && leaf < |nodes| && !IsDir(nodes, leaf)
    ensures nodes[leaf].children == []
  {
    hide ParentsOk; hide ChildrenOk;
    var ids := nodes[leaf].children;
    assert |ids| == 0 || ids[0] in ids;
    NothingBelowFile(nodes, leaf);
  }

  lemma NothingBelowFile(nodes: seq<Node>, leaf: nat)
    requires ParentsOk(nodes) && ChildrenOk(nodes) && leaf < |nodes| && !IsDir(nodes, leaf)
    ensures forall c: nat :: c !in nodes[leaf].children
  {
  }

  // ---------- object ids ----------

  /** `encode_id`: the node in the high bits, the torrent plus one in the low 16, in 64-bit words. */
  function EncodeId(node: bv64, torrent: bv64): bv64 {
    (node << 16) | (torrent + 1)
  }

  function DecodeId(id: bv64): Option<(bv64, bv64)> {
    if id & 0xffff == 0 then None else Some((id >> 16, (id & 0xffff) - 1))
  }

  /** Decoding undoes encoding exactly when the torrent fits 16 bits after adding one and the node
      loses no bits in the shift. */
  lemma IdRoundTrip(node: bv64, torrent: bv64)
    ensures DecodeId(EncodeId(node, torrent)) == Some((node, torrent)) <==>
            torrent < 0xffff && node < 0x1_0000_0000_0000
    ensures torrent < 0xffff && node < 0x1_0000_0000_0000 ==>
              EncodeId(node, torrent) >> 16 == node && EncodeId(node, torrent) & 0xffff == torrent + 1
  {
  }
}
