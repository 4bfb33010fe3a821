/** The directories and entries a server offers (src/httpd.cpp). */
module ContentTree {
  import opened Bytes
  import opened Tokens

  const HTTP_C_FUNCT := 2
  const HTTP_WILDCARD := 5
  const HTTP_C_WILDCARD := 6

  type Name = seq<Byte>

  // ----- Entries -----

  /** The chain of entries of a directory, the last registered first. */
  datatype Entries = End | Entry(name: Name, kind: nat, indexFlag: bool, handler: nat, next: Entries)

  /** The tests of `_httpd_findContentEntry`, in its order. */
  predicate Matches(entry: Entries, entryName: Name) {
    entry.Entry? &&
    (entry.kind == HTTP_WILDCARD || entry.kind == HTTP_C_WILDCARD ||
     (entryName == [] && entry.indexFlag) || entry.name == entryName)
  }

  function FirstMatch(entries: Entries, entryName: Name): Entries {
    if entries.End? || Matches(entries, entryName) then entries else FirstMatch(entries.next, entryName)
  }

  /** The part of a response that records the entry found. */
  class HttpRes {
    var content: Entries

    constructor ()
      ensures content == End
    {
      content := End;
    }
  }

  /** `_httpd_findContentEntry`: an entry found is recorded in the response. */
  method FindContentEntry(response: HttpRes, dir: HttpDir, entryName: Name) returns (found: Entries)
    modifies response
    ensures found == FirstMatch(dir.entries, entryName)
    ensures response.content == if found.Entry? then found else old(response.content)
  {
    found := dir.entries;
    while found.Entry?
      invariant FirstMatch(dir.entries, entryName) == FirstMatch(found, entryName)
      decreases found
    {
      if found.kind == HTTP_WILDCARD || found.kind == HTTP_C_WILDCARD {
        break;
      }
      if entryName == [] && found.indexFlag {
        break;
      }
      if found.name == entryName {
        break;
      }
      found := found.next;
    }
    if found.Entry? {
      response.content := found;
    }
  }

  // ----- Directories -----

  class HttpDir {
    const name: Name
    var children: HttpDir?
    var next: HttpDir?
    var entries: Entries

    constructor (name: Name)
      ensures this.name == name && children == null && next == null && entries == End
    {
      this.name := name;
      children, next, entries := null, null, End;
    }
  }

  /** A directory's parent, and how many siblings stand behind it in the chain. */
  datatype Place = Place(parent: HttpDir, row: nat)

  datatype Edge = Edge(parent: HttpDir, name: Name)

  /** The tree: directories by place, places, the number of children, and children by name. */
  datatype Tree = Tree(
    root: HttpDir, nodes: map<Place, HttpDir>, places: map<HttpDir, Place>,
    kids: map<HttpDir, nat>, edges: map<Edge, HttpDir>)
  {
    function At(d: HttpDir, i: nat): HttpDir? {
      if Place(d, i) in nodes then nodes[Place(d, i)] else null
    }

    function FirstChild(d: HttpDir): HttpDir?
      requires d in kids
    {
      if kids[d] == 0 then null else At(d, kids[d] - 1)
    }

    function NextSibling(d: HttpDir): HttpDir?
      requires d in places
    {
      if places[d].row == 0 then null else At(places[d].parent, places[d].row - 1)
    }

    /** Every directory but the root has one parent and one place among its children. */
    ghost predicate Shaped() {
      root in kids && root !in places &&
      (forall d {:trigger kids[d]} | d in kids :: d == root || d in places) &&
      (forall d {:trigger places[d]} | d in places :: d in kids && places[d] in nodes && nodes[places[d]] == d) &&
      (forall p {:trigger nodes[p]} | p in nodes :: nodes[p] in places && places[nodes[p]] == p) &&
      (forall p {:trigger nodes[p]} | p in nodes :: p.parent in kids && p.row < kids[p.parent]) &&
      (forall d, i: nat {:trigger Place(d, i)} | d in kids && i < kids[d] :: Place(d, i) in nodes)
    }

    /** Children are found by name, so that no two siblings share one. */
    ghost predicate Named() {
      (forall d {:trigger places[d]} | d in places ::
        Edge(places[d].parent, d.name) in edges && edges[Edge(places[d].parent, d.name)] == d) &&
      (forall e {:trigger edges[e]} | e in edges ::
        edges[e] in places && places[edges[e]].parent == e.parent && edges[e].name == e.name)
    }

    function Put(d: HttpDir, v: HttpDir): Tree
      requires d in kids
    {
      var p := Place(d, kids[d]);
      Tree(root, nodes[p := v], places[v := p], kids[d := kids[d] + 1][v := 0], edges[Edge(d, v.name) := v])
    }

    /** The directory at the end of a list of names. */
    function Walk(names: seq<Name>): HttpDir? {
      if names == [] then root
      else
        var d := Walk(names[..|names| - 1]);
        if d == null || Edge(d, names[|names| - 1]) !in edges then null else edges[Edge(d, names[|names| - 1])]
    }
  }

  lemma {:induction false} PutShaped(t: Tree, d: HttpDir, v: HttpDir)
    requires t.Shaped() && d in t.kids && v !in t.kids
    ensures t.Put(d, v).Shaped()
  {
    var after := t.Put(d, v);
    forall w, i: nat | w in after.kids && i < after.kids[w]
      ensures Place(w, i) in after.nodes
    {
      assert w == v || (w == d && i == t.kids[d]) || Place(w, i) in t.nodes;
    }
    assert v !in t.places && Place(d, t.kids[d]) !in t.nodes;
  }

  lemma {:induction false} PutNamed(t: Tree, d: HttpDir, v: HttpDir)
    requires t.Shaped() && t.Named() && d in t.kids && v !in t.kids && Edge(d, v.name) !in t.edges
    ensures t.Put(d, v).Named()
  {
  }

  /** A new child heads the chain; no other link changes. */
  lemma {:induction false} PutLinks(t: Tree, d: HttpDir, v: HttpDir, w: HttpDir)
    requires t.Shaped() && d in t.kids && v !in t.kids && w in t.Put(d, v).kids
    ensures var after := t.Put(d, v);
      after.FirstChild(w) == (if w == d then v else if w == v then null else t.FirstChild(w)) &&
      (w in after.places ==> after.NextSibling(w) == if w == v then t.FirstChild(d) else t.NextSibling(w))
  {
  }

  /** The child of that name among the last `i` of the chain. */
  function FindAmong(t: Tree, d: HttpDir, name: Name, i: nat): HttpDir?
    requires t.Shaped() && d in t.kids && i <= t.kids[d]
  {
    if i == 0 then null
    else
      assert Place(d, i - 1) in t.nodes;
      if t.nodes[Place(d, i - 1)].name == name then t.At(d, i - 1) else FindAmong(t, d, name, i - 1)
  }

  lemma {:induction false} FoundAmong(t: Tree, d: HttpDir, name: Name, i: nat)
    requires t.Shaped() && t.Named() && d in t.kids && i <= t.kids[d]
    ensures var v := FindAmong(t, d, name, i);
      if v == null then Edge(d, name) in t.edges ==> t.places[t.edges[Edge(d, name)]].row >= i
      else Edge(d, name) in t.edges && t.edges[Edge(d, name)] == v
    decreases i
  {
    if i > 0 {
      var v := t.nodes[Place(d, i - 1)];
      FoundAmong(t, d, name, i - 1);
      assert t.places[v] == Place(d, i - 1);
    }
  }

  /** The chain of children has a child of that name exactly if the tree does. */
  lemma {:induction false} FindAmongIs(t: Tree, d: HttpDir, name: Name)
    requires t.Shaped() && t.Named() && d in t.kids
    ensures FindAmong(t, d, name, t.kids[d]) == if Edge(d, name) in t.edges then t.edges[Edge(d, name)] else null
  {
    FoundAmong(t, d, name, t.kids[d]);
  }

  lemma {:induction false} WalkKnown(t: Tree, names: seq<Name>)
    requires t.Shaped() && t.Named()
    ensures t.Walk(names) != null ==> t.Walk(names) in t.kids
  {
  }

  /** Different lists of names lead to different directories. */
  lemma {:induction false} WalkInjective(t: Tree, a: seq<Name>, b: seq<Name>)
    requires t.Shaped() && t.Named() && t.Walk(a) != null && t.Walk(a) == t.Walk(b)
    ensures a == b
    decreases |a|
  {
    if a != [] && b != [] {
      var m, n := |a| - 1, |b| - 1;
      WalkInjective(t, a[..m], b[..n]);
      assert a == a[..m] + [a[m]] && b == b[..n] + [b[n]];
    }
  }

  /** A new directory is found by its own path, and every other path leads where it did. */
  lemma {:induction false} PutWalk(t: Tree, path: seq<Name>, v: HttpDir, names: seq<Name>)
    requires t.Shaped() && t.Named() && v !in t.kids && t.Walk(path) != null && t.Walk(path) in t.kids
    requires Edge(t.Walk(path), v.name) !in t.edges
    ensures t.Put(t.Walk(path), v).Walk(names) == if names == path + [v.name] then v else t.Walk(names)
    decreases |names|
  {
    var d := t.Walk(path);
    var after := t.Put(d, v);
    if names != [] {
      var n := |names| - 1;
      var front, name := names[..n], names[n];
      PutWalk(t, path, v, front);
      assert names == front + [name];
      WalkKnown(t, front);
      if front == path + [v.name] {
        NoEdges(t, d, v, name);
        WalkBeyond(t, path, v.name, name);
      } else if t.Walk(front) == d && name == v.name {
        WalkInjective(t, front, path);
      }
      assert (path + [v.name])[..|path|] == path;
    }
  }

  lemma {:induction false} NoEdges(t: Tree, d: HttpDir, v: HttpDir, name: Name)
    requires t.Shaped() && t.Named() && d in t.kids && v !in t.kids
    ensures Edge(v, name) !in t.Put(d, v).edges
  {
  }

  lemma {:induction false} WalkBeyond(t: Tree, path: seq<Name>, name: Name, next: Name)
    requires t.Walk(path) != null && Edge(t.Walk(path), name) !in t.edges
    ensures t.Walk(path + [name] + [next]) == null
  {
    assert (path + [name])[..|path|] == path;
    assert t.Walk(path + [name]) == null;
    assert (path + [name] + [next])[..|path| + 1] == path + [name];
  }

  // ----- The tree with its entries -----

  /** The tree, and the chain of entries of each directory. */
  datatype Site = Site(tree: Tree, lists: map<HttpDir, Entries>) {
    ghost predicate Shaped() {
      tree.Shaped() && tree.Named() && lists.Keys == tree.kids.Keys
    }

    /** The directory at the end of a list of names. */
    function Find(names: seq<Name>): HttpDir? {
      tree.Walk(names)
    }

    /** The entries at the end of a list of names; none where there is no directory. */
    function Listing(names: seq<Name>): Entries {
      var d := Find(names);
      if d == null || d !in lists then End else lists[d]
    }

    function Put(d: HttpDir, v: HttpDir): Site
      requires d in tree.kids
    {
      Site(tree.Put(d, v), lists[v := End])
    }

    function WithList(d: HttpDir, entries: Entries): Site {
      Site(tree, lists[d := entries])
    }
  }

  /** Every chain there was is kept, and a new directory has none. */
  ghost predicate ListsKept(before: map<HttpDir, Entries>, after: map<HttpDir, Entries>) {
    (forall d | d in before :: d in after && after[d] == before[d]) &&
    (forall d | d in after && d !in before :: after[d] == End)
  }

  /** Whatever was found is found again, what is new lies on the path, and no listing changes. */
  ghost predicate Grown(before: Site, after: Site, path: seq<Name>) {
    ListsKept(before.lists, after.lists) &&
    forall names {:trigger after.Find(names)} {:trigger after.Listing(names)} ::
      (before.Find(names) != null ==> after.Find(names) == before.Find(names)) &&
      (after.Find(names) != null <==> before.Find(names) != null || names <= path) &&
      after.Listing(names) == before.Listing(names)
  }

  lemma {:induction false} PrefixesFound(t: Tree, path: seq<Name>, names: seq<Name>)
    requires t.Walk(path) != null && names <= path
    ensures t.Walk(names) != null
    decreases |path|
  {
    if names != path {
      assert names <= path[..|path| - 1];
      PrefixesFound(t, path[..|path| - 1], names);
    }
  }

  lemma {:induction false} GrownByNothing(s: Site, path: seq<Name>)
    requires s.Find(path) != null
    ensures Grown(s, s, path)
  {
    forall names | names <= path
      ensures s.Find(names) != null
    {
      PrefixesFound(s.tree, path, names);
    }
  }

  lemma {:induction false} PutListing(s: Site, path: seq<Name>, v: HttpDir, names: seq<Name>)
    requires s.Shaped() && v !in s.tree.kids && s.Find(path) != null && s.Find(path) in s.tree.kids
    requires Edge(s.Find(path), v.name) !in s.tree.edges
    ensures s.Put(s.Find(path), v).Listing(names) == s.Listing(names)
  {
    PutWalk(s.tree, path, v, names);
    WalkKnown(s.tree, names);
    WalkOne(s.tree, path, v.name);
  }

  lemma {:induction false} GrownByOne(before: Site, s: Site, path: seq<Name>, v: HttpDir)
    requires s.Shaped() && v !in s.tree.kids && s.Find(path) != null && s.Find(path) in s.tree.kids
    requires Edge(s.Find(path), v.name) !in s.tree.edges && Grown(before, s, path)
    ensures Grown(before, s.Put(s.Find(path), v), path + [v.name])
    ensures s.Put(s.Find(path), v).Find(path + [v.name]) == v
  {
    var more, after := path + [v.name], s.Put(s.Find(path), v);
    forall names
      ensures before.Find(names) != null ==> after.Find(names) == before.Find(names)
      ensures after.Find(names) != null <==> before.Find(names) != null || names <= more
      ensures after.Listing(names) == before.Listing(names)
    {
      FoundAfter(s, path, v, names);
      PutListing(s, path, v, names);
      PrefixOfMore(path, v.name, names);
    }
    FoundAfter(s, path, v, more);
  }

  lemma {:induction false} FoundAfter(s: Site, path: seq<Name>, v: HttpDir, names: seq<Name>)
    requires s.Shaped() && v !in s.tree.kids && s.Find(path) != null && s.Find(path) in s.tree.kids
    requires Edge(s.Find(path), v.name) !in s.tree.edges
    ensures s.Put(s.Find(path), v).Find(names) == if names == path + [v.name] then v else s.Find(names)
    ensures names == path + [v.name] ==> s.Find(names) == null
  {
    PutWalk(s.tree, path, v, names);
    WalkOne(s.tree, path, v.name);
  }

  lemma {:induction false} PrefixOfMore(path: seq<Name>, name: Name, names: seq<Name>)
    ensures names <= path + [name] <==> names <= path || names == path + [name]
  {
  }

  lemma {:induction false} WalkOne(t: Tree, path: seq<Name>, name: Name)
    requires t.Walk(path) != null
    ensures var e := Edge(t.Walk(path), name); t.Walk(path + [name]) == if e in t.edges then t.edges[e] else null
  {
    assert (path + [name])[..|path|] == path;
  }

  lemma {:induction false} GrownAlready(before: Site, s: Site, path: seq<Name>, name: Name)
    requires s.Find(path + [name]) != null
    ensures Grown(before, s, path) ==> Grown(before, s, path + [name])
  {
    forall names
      ensures names <= path + [name] ==> s.Find(names) != null
      ensures names <= path ==> names <= path + [name]
    {
      PrefixOfMore(path, name, names);
      if names <= path + [name] { PrefixesFound(s.tree, path + [name], names); }
    }
  }

  /** A new chain at the end of a path changes the listing of that path only. */
  lemma {:induction false} ListedAt(s: Site, path: seq<Name>, entries: Entries, names: seq<Name>)
    requires s.Shaped() && s.Find(path) != null
    ensures s.WithList(s.Find(path), entries).Listing(names) == if names == path then entries else s.Listing(names)
  {
    if s.Find(names) == s.Find(path) { WalkInjective(s.tree, names, path); }
  }

  lemma {:induction false} NextPrefix(names: seq<Name>, k: nat)
    requires k <= |names|
    ensures if k == |names| then names[..k] == names else names[..k] + [names[k]] == names[..k + 1]
  {
  }

  lemma {:induction false} LostWalk(t: Tree, names: seq<Name>, k: nat)
    requires k <= |names| && t.Walk(names[..k]) == null
    ensures t.Walk(names) == null
  {
    if t.Walk(names) != null { PrefixesFound(t, names, names[..k]); }
  }

  // ----- Registrations -----

  /** The names on a path: its pieces between slashes, without the empty ones. */
  function PathNames(dir: seq<Byte>): seq<Name> {
    NonEmpty(Split(Strncpy(dir, HTTP_MAX_URL), SLASH))
  }

  datatype Registration = Registration(name: Name, kind: nat, indexFlag: bool, handler: nat)

  /** A registration in the directory of these names. */
  datatype Call = Call(names: seq<Name>, reg: Registration)

  /** The calls with these paths and registrations, by the names on each path. */
  function Calls(dirs: seq<seq<Byte>>, regs: seq<Registration>): (calls: seq<Call>)
    requires |dirs| == |regs|
    ensures |calls| == |dirs| && forall i | 0 <= i < |dirs| :: calls[i] == Call(PathNames(dirs[i]), regs[i])
  {
    seq(|dirs|, i requires 0 <= i < |dirs| => Call(PathNames(dirs[i]), regs[i]))
  }

  /** The chain of a directory after the first `n` calls: those made for its names, the last
      one first. */
  function ChainAt(calls: seq<Call>, n: nat, names: seq<Name>): Entries
    requires n <= |calls|
  {
    if n == 0 then End
    else
      var reg := calls[n - 1].reg;
      var rest := ChainAt(calls, n - 1, names);
      if calls[n - 1].names == names then Entry(reg.name, reg.kind, reg.indexFlag, reg.handler, rest) else rest
  }

  /** The first `n` calls have created the directory. */
  predicate OnPath(calls: seq<Call>, n: nat, names: seq<Name>)
    requires n <= |calls|
  {
    names == [] || (n > 0 && (names <= calls[n - 1].names || OnPath(calls, n - 1, names)))
  }

  /** A lookup of `entryName` in the directory of these names can end at the call. */
  predicate Serves(call: Call, names: seq<Name>, entryName: Name) {
    call.names == names &&
    (call.reg.kind == HTTP_WILDCARD || call.reg.kind == HTTP_C_WILDCARD ||
     (entryName == [] && call.reg.indexFlag) || call.reg.name == entryName)
  }

  /** The lookup finds the last call that serves it; without wildcards that is the most
      recent one of the name, or for the empty name the most recent index. */
  lemma {:induction false} MostRecentWins(calls: seq<Call>, n: nat, names: seq<Name>, entryName: Name, k: nat)
    requires k < n <= |calls| && Serves(calls[k], names, entryName)
    requires forall i | k < i < n :: !Serves(calls[i], names, entryName)
    ensures FirstMatch(ChainAt(calls, n, names), entryName) == ChainAt(calls, k + 1, names)
    ensures FirstMatch(ChainAt(calls, n, names), entryName).handler == calls[k].reg.handler
  {
    if k < n - 1 { MostRecentWins(calls, n - 1, names, entryName, k); }
  }

  lemma {:induction false} NoneFound(calls: seq<Call>, n: nat, names: seq<Name>, entryName: Name)
    requires n <= |calls|
    ensures FirstMatch(ChainAt(calls, n, names), entryName).End? <==>
      forall i | 0 <= i < n :: !Serves(calls[i], names, entryName)
  {
    if n > 0 { NoneFound(calls, n - 1, names, entryName); }
  }

  /** The entry found, in the kinds 5 and 6 of the wildcards: the last call for the names
      that has the name asked for, or is a wildcard, or the index where no name is asked for. */
  lemma {:induction false} EntryFound(calls: seq<Call>, n: nat, names: seq<Name>, entryName: Name, k: nat)
    requires k < n <= |calls| && calls[k].names == names
    requires calls[k].reg.name == entryName || calls[k].reg.kind == 5 || calls[k].reg.kind == 6 ||
      (entryName == [] && calls[k].reg.indexFlag)
    requires forall i | k < i < n && calls[i].names == names ::
      calls[i].reg.name != entryName && calls[i].reg.kind != 5 && calls[i].reg.kind != 6 &&
      (entryName == [] ==> !calls[i].reg.indexFlag)
    ensures var found, reg := FirstMatch(ChainAt(calls, n, names), entryName), calls[k].reg;
      found.Entry? && found.name == reg.name && found.kind == reg.kind && found.indexFlag == reg.indexFlag &&
      found.handler == reg.handler
  {
    MostRecentWins(calls, n, names, entryName, k);
  }

  // ----- Paths as they are written -----

  /** Each name behind a slash. */
  function Rooted(names: seq<Name>): seq<Byte> {
    if names == [] then [] else ['/' as int] + names[0] + Rooted(names[1..])
  }

  ghost predicate Proper(names: seq<Name>) {
    forall i | 0 <= i < |names| :: names[i] != [] && '/' as int !in names[i]
  }

  lemma {:induction false} SplitRooted(front: Name, names: seq<Name>)
    requires '/' as int !in front && Proper(names)
    ensures Split(front + Rooted(names), SLASH) == [front] + names
    decreases |names|
  {
    if names == [] {
      assert front + [] == front && [front] + names == [front];
      IndexOfIs(front, SLASH, |front|);
    } else {
      var rest := names[0] + Rooted(names[1..]);
      assert front + Rooted(names) == front + [SLASH] + rest;
      assert Proper(names[1..]) by { assert forall i | 0 <= i < |names[1..]| :: names[1..][i] == names[i + 1]; }
      SplitFirst(front, rest, SLASH);
      SplitRooted(names[0], names[1..]);
      assert names == [names[0]] + names[1..];
    }
  }

  lemma {:induction false} SomeEmpty(names: seq<Name>)
    requires Proper(names)
    ensures NonEmpty(names) == names && NonEmpty([[]] + names) == names
  {
    assert [] !in names;
    NonEmptyAll(names);
    assert ([[]] + names)[1..] == names && [] + names == names;
  }

  /** A path below 1024 octets leads along the names that stand behind its slashes, whether
      it starts with a slash or not. */
  lemma {:induction false} PathOf(names: seq<Name>)
    requires Proper(names) && |Rooted(names)| < 1024
    ensures PathNames(Rooted(names)) == names
    ensures names != [] ==> PathNames(Rooted(names)[1..]) == names
  {
    SplitRooted([], names);
    SomeEmpty(names);
    assert [] + Rooted(names) == Rooted(names);
    if names != [] { PathWithoutRoot(names); }
  }

  /** Of a longer path the first 1023 octets count. */
  lemma {:induction false} PathCut(dir: seq<Byte>)
    requires |dir| >= 1024
    ensures PathNames(dir) == PathNames(dir[..1023])
  {
    assert |dir[..1023]| == 1023;
  }

  lemma {:induction false} PathWithoutRoot(names: seq<Name>)
    requires Proper(names) && 0 < |names| && |Rooted(names)| < 1024
    ensures PathNames(Rooted(names)[1..]) == names
  {
    SomeEmpty(names);
    assert Rooted(names)[1..] == names[0] + Rooted(names[1..]);
    assert forall i | 0 <= i < |names[1..]| :: names[1..][i] == names[i + 1];
    SplitRooted(names[0], names[1..]);
    assert names == [names[0]] + names[1..];
  }

  /** What the server offers after the first `n` calls. */
  ghost predicate Offers(s: Site, calls: seq<Call>, n: nat)
    requires n <= |calls|
  {
    forall names {:trigger s.Find(names)} {:trigger s.Listing(names)} ::
      s.Listing(names) == ChainAt(calls, n, names) && (s.Find(names) != null <==> OnPath(calls, n, names))
  }

  lemma {:induction false} OffersNext(before: Site, grown: Site, d: HttpDir, calls: seq<Call>, n: nat)
    requires n < |calls| && Offers(before, calls, n) && Grown(before, grown, calls[n].names) && grown.Shaped()
    requires d == grown.Find(calls[n].names)
    ensures var reg := calls[n].reg;
      var entry := Entry(reg.name, reg.kind, reg.indexFlag, reg.handler, before.Listing(calls[n].names));
      Offers(grown.WithList(d, entry), calls, n + 1)
  {
    var path, reg := calls[n].names, calls[n].reg;
    var entry := Entry(reg.name, reg.kind, reg.indexFlag, reg.handler, before.Listing(path));
    forall names
      ensures grown.WithList(d, entry).Listing(names) == ChainAt(calls, n + 1, names)
      ensures grown.Find(names) != null <==> OnPath(calls, n + 1, names)
    {
      ListedAt(grown, path, entry, names);
    }
  }

  // ----- The server -----

  class Server {
    const content: HttpDir
    ghost var site: Site

    constructor ()
      ensures Valid() && fresh(Dirs()) && Dirs() == {content} && content.entries == End
      ensures forall calls :: Offers(site, calls, 0)
    {
      content := new HttpDir([]);
      site := Site(Tree(content, map[], map[], map[content := 0], map[]), map[content := End]);
    }

    ghost function Dirs(): set<HttpDir>
      reads this
    {
      site.tree.kids.Keys
    }

    /** The nodes carry the links and the entries of a site. */
    ghost predicate Linked(s: Site)
      reads s.tree.kids.Keys
    {
      (forall d {:trigger d.children} | d in s.tree.kids :: d.children == s.tree.FirstChild(d)) &&
      (forall d {:trigger d.next} | d in s.tree.kids && d in s.tree.places :: d.next == s.tree.NextSibling(d)) &&
      (forall d {:trigger d.entries} | d in s.tree.kids && d in s.lists :: d.entries == s.lists[d])
    }

    ghost predicate Mirrors(s: Site)
      reads s.tree.kids.Keys
    {
      s.tree.root == content && s.Shaped() && Linked(s)
    }

    ghost predicate Valid()
      reads this, Dirs()
    {
      Mirrors(site)
    }

    /** The loop along the children of a directory. */
    method FindChild(d: HttpDir, name: Name) returns (curChild: HttpDir?)
      requires Valid() && d in Dirs()
      ensures curChild == if Edge(d, name) in site.tree.edges then site.tree.edges[Edge(d, name)] else null
    {
      curChild := d.children;
      ghost var i := site.tree.kids[d];
      FindAmongIs(site.tree, d, name);
      while curChild != null && curChild.name != name
        invariant i <= site.tree.kids[d] && curChild == if i == 0 then null else site.tree.At(d, i - 1)
        invariant FindAmong(site.tree, d, name, site.tree.kids[d]) == FindAmong(site.tree, d, name, i)
        decreases i
      {
        curChild := curChild.next;
        i := i - 1;
      }
    }

    /** The branch that creates a directory. */
    method CreateChild(curItem: HttpDir, name: Name) returns (curChild: HttpDir)
      requires Valid() && curItem in Dirs() && Edge(curItem, name) !in site.tree.edges
      modifies this, curItem
      ensures Valid() && fresh(curChild) && curChild.name == name
      ensures site == old(site).Put(curItem, curChild)
      ensures old(Dirs()) <= Dirs() <= old(Dirs()) + {curChild} && curChild in Dirs()
    {
      curChild := new HttpDir(name);
      Adopt(curItem, curChild);
    }

    method Adopt(curItem: HttpDir, curChild: HttpDir)
      requires Valid() && curItem in Dirs() && Edge(curItem, curChild.name) !in site.tree.edges
      requires curChild !in Dirs() && curChild.children == null && curChild.entries == End
      modifies this, curItem`children, curChild`next
      ensures Valid() && site == old(site).Put(curItem, curChild)
    {
      ghost var was := site;
      Link(curItem, curChild);
      Rejoin(was, curItem, curChild);
    }

    /** The new node heads the chain of children. */
    method Link(curItem: HttpDir, curChild: HttpDir)
      requires Linked(site) && curItem in Dirs() && curChild !in Dirs()
      modifies this, curItem`children, curChild`next
      ensures site == old(site).Put(curItem, curChild) && curChild.next == old(site).tree.FirstChild(curItem)
      ensures Extended(old(site), curItem, curChild)
    {
      ghost var was := site;
      curChild.next := curItem.children;
      curItem.children := curChild;
      site := site.Put(curItem, curChild);
    }

    /** The links and entries of the old nodes, with `v` ahead of the children of `d`. */
    ghost predicate Extended(was: Site, d: HttpDir, v: HttpDir)
      reads was.tree.kids.Keys
    {
      (forall w {:trigger w.children} | w in was.tree.kids ::
        w.children == if w == d then v else was.tree.FirstChild(w)) &&
      (forall w {:trigger w.next} | w in was.tree.kids && w in was.tree.places :: w.next == was.tree.NextSibling(w)) &&
      (forall w {:trigger w.entries} | w in was.tree.kids && w in was.lists :: w.entries == was.lists[w])
    }

    lemma {:induction false} Rejoin(was: Site, d: HttpDir, v: HttpDir)
      requires was.tree.root == content && was.Shaped() && d in was.tree.kids && v !in was.tree.kids
      requires Edge(d, v.name) !in was.tree.edges && site == was.Put(d, v) && Extended(was, d, v)
      requires v.children == null && v.next == was.tree.FirstChild(d) && v.entries == End
      ensures Valid()
    {
      Relinked(was, d, v);
      PutShaped(was.tree, d, v);
      PutNamed(was.tree, d, v);
    }

    lemma {:induction false} Relinked(was: Site, d: HttpDir, v: HttpDir)
      requires was.tree.Shaped() && was.lists.Keys == was.tree.kids.Keys && d in was.tree.kids && v !in was.tree.kids
      requires Extended(was, d, v)
      requires v.children == null && v.next == was.tree.FirstChild(d) && v.entries == End
      ensures Linked(was.Put(d, v))
    {
      var after := was.Put(d, v);
      forall w | w in after.tree.kids
        ensures w.children == after.tree.FirstChild(w)
        ensures w in after.tree.places ==> w.next == after.tree.NextSibling(w)
      {
        PutLinks(was.tree, d, v, w);
        if w in was.tree.kids { assert w in was.tree.places || w == was.tree.root by { var n := was.tree.kids[w]; } }
      }
    }

    /** The search has come along `seen` to `cur`. */
    ghost predicate Reached(before: Site, createFlag: bool, seen: seq<Name>, cur: HttpDir)
      reads this
    {
      cur == site.Find(seen) && cur in Dirs() && if createFlag then Grown(before, site, seen) else site == before
    }

    /** The branch that creates, with the path it extends. */
    method CreateNext(curItem: HttpDir, name: Name, ghost before: Site, ghost seen: seq<Name>)
      returns (curChild: HttpDir)
      requires Valid() && Reached(before, true, seen, curItem) && Edge(curItem, name) !in site.tree.edges
      modifies this, curItem
      ensures Valid() && fresh(curChild) && Reached(before, true, seen + [name], curChild)
      ensures old(Dirs()) <= Dirs() <= old(Dirs()) + {curChild}
    {
      ghost var was := site;
      curChild := CreateChild(curItem, name);
      GrownByOne(before, was, seen, curChild);
    }

    /** One turn of the token loop: to the child of that name, created if it is missing. */
    method Descend(curItem: HttpDir, name: Name, createFlag: bool, ghost before: Site, ghost seen: seq<Name>)
      returns (curChild: HttpDir?, ghost made: set<HttpDir>)
      requires Valid() && Reached(before, createFlag, seen, curItem)
      modifies this, curItem
      ensures Valid() && Dirs() <= old(Dirs()) + made && old(Dirs()) <= Dirs() && fresh(made)
      ensures if curChild != null then Reached(before, createFlag, seen + [name], curChild)
        else !createFlag && site == before && site.Find(seen + [name]) == null
    {
      made := {};
      curChild := FindChild(curItem, name);
      WalkOne(site.tree, seen, name);
      if curChild == null {
        if createFlag {
          curChild := CreateNext(curItem, name, before, seen);
          made := {curChild};
        }
      } else {
        GrownAlready(before, site, seen, name);
      }
    }

    /** `_httpd_findContentDir`. */
    method FindContentDir(dir: seq<Byte>, createFlag: bool) returns (curItem: HttpDir?)
      requires Valid()
      modifies this, Dirs()
      ensures Valid() && old(Dirs()) <= Dirs() && fresh(Dirs() - old(Dirs()))
      ensures curItem == site.Find(PathNames(dir)) && (curItem != null ==> curItem in Dirs())
      ensures if createFlag then curItem != null && Grown(old(site), site, PathNames(dir)) else site == old(site)
    {
      TokenizeIsNonEmpty(Strncpy(dir, HTTP_MAX_URL), SLASH);
      GrownByNothing(site, []);
      ghost var made;
      curItem, made := FollowTokens(Tokenize(Strncpy(dir, HTTP_MAX_URL), SLASH), createFlag, site);
    }

    /** The state of the token loop: `made` are the directories created so far. */
    ghost predicate Searching(before: Site, createFlag: bool, seen: seq<Name>, cur: HttpDir, known: set<HttpDir>,
        made: set<HttpDir>)
      reads this, Dirs()
    {
      Valid() && Dirs() <= known + made && known <= Dirs() && Reached(before, createFlag, seen, cur)
    }

    /** The search has ended without a directory, and has changed nothing. */
    ghost predicate Missing(before: Site, createFlag: bool, tokens: seq<Name>, known: set<HttpDir>, made: set<HttpDir>)
      reads this, Dirs()
    {
      Valid() && known <= Dirs() <= known + made && !createFlag && site == before && site.Find(tokens) == null
    }

    /** One turn of the token loop. */
    method Step(cur: HttpDir, tokens: seq<Name>, k: nat, createFlag: bool, ghost before: Site,
        ghost known: set<HttpDir>, ghost made: set<HttpDir>)
      returns (curItem: HttpDir?, ghost more: set<HttpDir>)
      requires k < |tokens| && Searching(before, createFlag, tokens[..k], cur, known, made)
      modifies this, cur
      ensures fresh(more) &&
        if curItem != null then Searching(before, createFlag, tokens[..k + 1], curItem, known, made + more)
        else Missing(before, createFlag, tokens, known, made + more)
    {
      NextPrefix(tokens, k);
      curItem, more := Descend(cur, tokens[k], createFlag, before, tokens[..k]);
      if curItem == null { LostWalk(site.tree, tokens, k + 1); }
    }

    /** The loop over what the `strtok` calls return. */
    method FollowTokens(tokens: seq<Name>, createFlag: bool, ghost before: Site)
      returns (curItem: HttpDir?, ghost made: set<HttpDir>)
      requires Searching(before, createFlag, [], content, Dirs(), {})
      modifies this, Dirs()
      ensures fresh(made) && if curItem != null then Searching(before, createFlag, tokens, curItem, old(Dirs()), made)
        else Missing(before, createFlag, tokens, old(Dirs()), made)
    {
      curItem, made := content, {};
      ghost var known := Dirs();
      for k := 0 to |tokens|
        invariant curItem != null && fresh(made) && Searching(before, createFlag, tokens[..k], curItem, known, made)
      {
        ghost var more;
        curItem, more := Step(curItem, tokens, k, createFlag, before, known, made);
        made := made + more;
        if curItem == null {
          return;
        }
      }
      NextPrefix(tokens, |tokens|);
    }

    /** `httpdAddCContent`; `grown` is the site before the entry is chained. */
    method AddCContent(dir: seq<Byte>, name: Name, indexFlag: bool, function_: nat)
      returns (dirPtr: HttpDir, ghost grown: Site)
      requires Valid()
      modifies this, Dirs()
      ensures Valid() && old(Dirs()) <= Dirs() && fresh(Dirs() - old(Dirs()))
      ensures dirPtr == site.Find(PathNames(dir)) && dirPtr in Dirs()
      ensures dirPtr.entries == Entry(name, HTTP_C_FUNCT, indexFlag, function_, old(site).Listing(PathNames(dir)))
      ensures Grown(old(site), grown, PathNames(dir)) && grown.Shaped()
      ensures site == grown.WithList(dirPtr, dirPtr.entries)
    {
      var found := FindContentDir(dir, true);
      grown := site;
      dirPtr := found;
      PutEntry(dirPtr, Entry(name, HTTP_C_FUNCT, indexFlag, function_, dirPtr.entries));
    }

    /** `dirPtr->entries = newEntry`. */
    method PutEntry(dirPtr: HttpDir, newEntry: Entries)
      requires Valid() && dirPtr in Dirs()
      modifies this, dirPtr`entries
      ensures Valid() && dirPtr.entries == newEntry && site == old(site).WithList(dirPtr, newEntry)
    {
      ghost var was := site;
      SetEntries(dirPtr, newEntry);
      Relisted(was, dirPtr, newEntry);
    }

    method SetEntries(dirPtr: HttpDir, newEntry: Entries)
      requires Linked(site) && dirPtr in Dirs()
      modifies this, dirPtr`entries
      ensures dirPtr.entries == newEntry && site == old(site).WithList(dirPtr, newEntry) && Linked(site)
    {
      dirPtr.entries := newEntry;
      site := site.WithList(dirPtr, newEntry);
    }

    lemma {:induction false} Relisted(was: Site, d: HttpDir, entries: Entries)
      requires was.tree.root == content && was.Shaped() && d in was.tree.kids && Linked(was.WithList(d, entries))
      ensures Mirrors(was.WithList(d, entries))
    {
    }

    /** The `httpdAddCContent` calls a server starts with. */
    method AddAll(dirs: seq<seq<Byte>>, regs: seq<Registration>)
      requires Valid() && |dirs| == |regs| && Offers(site, Calls(dirs, regs), 0)
      requires forall i | 0 <= i < |regs| :: regs[i].kind == HTTP_C_FUNCT
      modifies this, Dirs()
      ensures Valid() && Offers(site, Calls(dirs, regs), |dirs|) && fresh(Dirs() - old(Dirs()))
    {
      ghost var known, made: set<HttpDir> := Dirs(), {};
      for n := 0 to |dirs|
        invariant fresh(made) && Offering(Calls(dirs, regs), n, known, made)
      {
        ghost var more := AddCall(dirs[n], regs[n], Calls(dirs, regs), n, known, made);
        made := made + more;
      }
    }

    /** The state between two calls: `made` are the directories created since `known`. */
    ghost predicate Offering(calls: seq<Call>, n: nat, known: set<HttpDir>, made: set<HttpDir>)
      requires n <= |calls|
      reads this, Dirs()
    {
      Valid() && Offers(site, calls, n) && known <= Dirs() <= known + made
    }

    method AddCall(dir: seq<Byte>, reg: Registration, ghost calls: seq<Call>, ghost n: nat,
        ghost known: set<HttpDir>, ghost made: set<HttpDir>)
      returns (ghost more: set<HttpDir>)
      requires n < |calls| && Offering(calls, n, known, made) && calls[n] == Call(PathNames(dir), reg)
      requires reg.kind == HTTP_C_FUNCT
      modifies this, Dirs()
      ensures fresh(more) && Offering(calls, n + 1, known, made + more)
    {
      ghost var before, was := site, Dirs();
      ghost var grown;
      var dirPtr;
      dirPtr, grown := AddCContent(dir, reg.name, reg.indexFlag, reg.handler);
      OffersNext(before, grown, dirPtr, calls, n);
      more := Dirs() - was;
    }

    /** The lookup of a directory and of an entry in it. */
    method Lookup(response: HttpRes, dir: seq<Byte>, entryName: Name, ghost calls: seq<Call>, ghost n: nat)
      returns (found: Entries)
      requires Valid() && n <= |calls| && Offers(site, calls, n)
      modifies this, Dirs(), response
      ensures Valid() && site == old(site)
      ensures found == FirstMatch(ChainAt(calls, n, PathNames(dir)), entryName)
      ensures response.content == if found.Entry? then found else old(response.content)
    {
      var d := FindContentDir(dir, false);
      assert site.Listing(PathNames(dir)) == ChainAt(calls, n, PathNames(dir));
      if d == null {
        return End;
      }
      found := FindContentEntry(response, d, entryName);
    }
  }

  /** The registrations a server starts with, and a lookup: the last registration of that
      name at that path is found. */
  method ServeLast(paths: seq<seq<Name>>, regs: seq<Registration>, k: nat, response: HttpRes)
    returns (found: Entries)
    requires |paths| == |regs| && k < |paths| && regs[k].name != []
    requires forall i | 0 <= i < |paths| :: Proper(paths[i]) && |Rooted(paths[i])| < 1024 && regs[i].kind == 2
    requires forall i | k < i < |paths| && paths[i] == paths[k] :: regs[i].name != regs[k].name
    modifies response
    ensures found.Entry? && found.name == regs[k].name && found.handler == regs[k].handler
    ensures response.content == found
  {
    var server := new Server();
    var dirs := seq(|paths|, i requires 0 <= i < |paths| => Rooted(paths[i]));
    ghost var calls := Calls(dirs, regs);
    server.AddAll(dirs, regs);
    found := server.Lookup(response, Rooted(paths[k]), regs[k].name, calls, |calls|);
    CallsAt(paths, dirs, regs, k);
    EntryFound(calls, |calls|, paths[k], regs[k].name, k);
  }

  lemma {:induction false} CallsAt(paths: seq<seq<Name>>, dirs: seq<seq<Byte>>, regs: seq<Registration>, k: nat)
    requires |paths| == |dirs| == |regs| && k < |paths|
    requires forall i | 0 <= i < |paths| :: Proper(paths[i]) && |Rooted(paths[i])| < 1024
    requires forall i | 0 <= i < |paths| :: dirs[i] == Rooted(paths[i])
    ensures PathNames(Rooted(paths[k])) == paths[k]
    ensures forall i | 0 <= i < |paths| :: Calls(dirs, regs)[i] == Call(paths[i], regs[i])
  {
    PathOf(paths[k]);
    forall i | 0 <= i < |paths|
      ensures Calls(dirs, regs)[i] == Call(paths[i], regs[i])
    {
      PathOf(paths[i]);
    }
  }
}
