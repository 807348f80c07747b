/**
 * The cache of the server's directories (ServerCacheNode in src/RestoreFilesPanel.cc): a listing is
 * grouped by name into one node for each name, with a version for each entry. A listing made on an
 * earlier connection is not used.
 */
module ServerCache {
  import opened Common
  import opened RestoreSelection
  import opened RestorePlan

  /** An entry of a directory as the server lists it, with its name in clear. */
  datatype DirEntry = DirEntry(name: string, version: Version)

  /** What each directory on the server holds, by its id. */
  type Store = int -> seq<DirEntry>

  /** The listing that a connection has given for a directory. */
  datatype Answer = Answer(connection: nat, id: int, contents: seq<DirEntry>)

  // ----- the connection -----

  class ServerConnection {
    var isConnected: bool
    var isWritable: bool
    /** How many connections have been made. */
    var connectionIndex: nat
    /** All listings that have been given. */
    ghost var answers: set<Answer>

    constructor ()
      ensures !isConnected && connectionIndex == 0 && answers == {}
    {
      isConnected, isWritable, connectionIndex, answers := false, false, 0, {};
    }

    method Disconnect()
      modifies this`isConnected
      ensures !isConnected
    {
      isConnected := false;
    }

    /** Every connection made has its own number; one that is there already, for the same purpose, is kept. */
    method Connect(writable: bool) returns (ok: bool)
      modifies this`isConnected, this`isWritable, this`connectionIndex
      ensures ok ==> isConnected && isWritable == writable
      ensures old(isConnected && isWritable == writable) ==> ok && unchanged(this)
      ensures connectionIndex == old(connectionIndex) + if ok && !old(isConnected && isWritable == writable) then 1 else 0
      ensures !ok ==> !isConnected
    {
      if isConnected && isWritable == writable { return true; }
      if isConnected { Disconnect(); }
      if * {
        // An exception while connecting.
        return false;
      }
      if * {
        isConnected, isWritable := true, writable;
        connectionIndex := connectionIndex + 1;
        return true;
      }
      isConnected, isWritable := false, false;
      return false;
    }

    /** Ask the server for a directory, connecting first if need be. */
    method ListDirectory(id: int, server: Store) returns (reply: Option<seq<DirEntry>>)
      modifies this
      ensures reply.Some? ==> reply == Some(server(id)) && isConnected
      ensures answers == old(answers) + if reply.Some? then {Answer(connectionIndex, id, server(id))} else {}
      ensures old(connectionIndex) <= connectionIndex <= old(connectionIndex) + 1
      ensures old(isConnected && !isWritable) ==> connectionIndex == old(connectionIndex)
    {
      var ok := Connect(false);
      if !ok { return None; }
      if * {
        if * { Disconnect(); }
        return None;
      }
      answers := answers + {Answer(connectionIndex, id, server(id))};
      return Some(server(id));
    }
  }

  // ----- grouping by name -----

  /** The versions that the listing has under a name, in its order. */
  function Named(dir: seq<DirEntry>, name: string): seq<Version> {
    if dir == [] then []
    else Named(dir[..|dir| - 1], name) + if dir[|dir| - 1].name == name then [dir[|dir| - 1].version] else []
  }

  lemma {:induction false} NamedIsThere(dir: seq<DirEntry>, name: string)
    ensures Named(dir, name) != [] <==> exists i :: 0 <= i < |dir| && dir[i].name == name
  {
    if dir != [] {
      var front := dir[..|dir| - 1];
      NamedIsThere(front, name);
      assert forall i :: 0 <= i < |front| ==> dir[i] == front[i];
    }
  }

  /** Taken together, the versions under all names are the entries of the listing: none is lost, and none is under two names. */
  lemma {:induction false} NamedCount(dir: seq<DirEntry>, e: DirEntry)
    ensures multiset(Named(dir, e.name))[e.version] == multiset(dir)[e]
  {
    if dir != [] {
      var front, last := dir[..|dir| - 1], dir[|dir| - 1];
      NamedCount(front, e);
      assert dir == front + [last];
    }
  }

  function ChildPath(parentIsRoot: bool, parentPath: string, name: string): string {
    if parentIsRoot then "/" + name else parentPath + "/" + name
  }

  const ROOT_VERSION := Version(1, true, false, 0, 0)

  ghost predicate UniqueNames(nodes: seq<ServerCacheNode>) {
    forall i, j :: 0 <= i < j < |nodes| ==> nodes[i].name != nodes[j].name
  }

  lemma OnlyOneNamed(nodes: seq<ServerCacheNode>, c: ServerCacheNode, d: ServerCacheNode)
    requires UniqueNames(nodes) && c in nodes && d in nodes
    ensures c.name == d.name ==> c == d
  {
  }

  lemma OneMore(nodes: seq<ServerCacheNode>, c: ServerCacheNode)
    requires UniqueNames(nodes) && forall d :: d in nodes ==> d.name != c.name
    ensures UniqueNames(nodes + [c])
  {
  }

  class ServerCacheNode {
    const name: string
    const fullPath: string
    const parent: ServerCacheNode?
    const connection: ServerConnection
    var versions: seq<Version>
    var mostRecent: Option<Version>
    var children: seq<ServerCacheNode>
    var cached: bool
    var connectionIndex: nat
    /** The listing that the children come from, and the directory id that it was asked for. */
    ghost var listing: seq<DirEntry>
    ghost var listedId: int

    constructor Root(connection: ServerConnection)
      ensures Valid() && this.connection == connection && parent == null && name == "" && fullPath == "/"
      ensures versions == [Version(1, true, false, 0, 0)] && children == [] && !cached
    {
      name, fullPath, parent, this.connection := "", "/", null, connection;
      versions, mostRecent, children, cached, listing, listedId := [ROOT_VERSION], None, [], false, [], 0;
      connectionIndex := connection.connectionIndex;
    }

    constructor Below(parent: ServerCacheNode, name: string)
      ensures Valid() && connectionIndex == connection.connectionIndex
      ensures this.parent == parent && this.name == name && connection == parent.connection
      ensures fullPath == ChildPath(parent.parent == null, parent.fullPath, name)
      ensures fullPath == if parent.parent == null then "/" + name else parent.fullPath + "/" + name
      ensures versions == [] && mostRecent.None? && children == [] && !cached
    {
      this.name, this.parent, connection := name, parent, parent.connection;
      fullPath := if parent.parent == null then "/" + name else parent.fullPath + "/" + name;
      versions, mostRecent, children, cached, listing, listedId := [], None, [], false, [], 0;
      connectionIndex := parent.connection.connectionIndex;
    }

    /** The nodes are found under this one's path. */
    ghost predicate Under(nodes: seq<ServerCacheNode>) {
      forall c :: c in nodes ==>
        c != this && c.parent == this && c.connection == connection && c.fullPath == ChildPath(parent == null, fullPath, c.name)
    }

    /** One child for each name, found under its parent's path. */
    ghost predicate Family()
      reads this`children
    {
      UniqueNames(children) && Under(children)
    }

    ghost predicate MemoRight()
      reads this
    {
      mostRecent.Some? ==> mostRecent == MostRecent(versions)
    }

    /** What is kept from a listing is what the listing says. */
    ghost predicate CacheRight()
      reads this, children
    {
      cached ==> forall c :: c in children ==> c.versions == Named(listing, c.name)
    }

    /** A connection has given the listing, and it is the one noted. */
    ghost predicate Answered()
      reads this, connection
    {
      && connectionIndex <= connection.connectionIndex
      && (cached ==> Answer(connectionIndex, listedId, listing) in connection.answers)
    }

    ghost predicate Valid()
      reads this, children, connection
    {
      && Family() && MemoRight() && CacheRight() && Answered()
      && forall c :: c in children ==> c.MemoRight()
    }

    /** The children come from a listing made on the present connection. */
    ghost predicate Current()
      reads this, connection
    {
      cached && connectionIndex == connection.connectionIndex
    }

    method GetMostRecent() returns (r: Option<Version>)
      requires MemoRight()
      modifies this`mostRecent
      ensures MemoRight() && r == MostRecent(versions)
    {
      if mostRecent.Some? { return mostRecent; }
      for i := 0 to |versions|
        invariant mostRecent == MostRecent(versions[..i])
      {
        assert versions[..i + 1][..i] == versions[..i];
        if mostRecent.None? {
          mostRecent := Some(versions[i]);
        } else if mostRecent.value.id < versions[i].id {
          mostRecent := Some(versions[i]);
        }
      }
      assert versions[..|versions|] == versions;
      return mostRecent;
    }

    /** Empty the children of versions, and make the table of their names. */
    method ForgetVersions() returns (table: map<string, ServerCacheNode>)
      requires Family()
      modifies children`versions, children`mostRecent
      ensures forall c :: c in children ==> c.versions == [] && c.mostRecent.None?
      ensures TableRight(table) && Holds([])
    {
      table := map[];
      for i := 0 to |children|
        invariant forall j :: 0 <= j < i ==> children[j].versions == [] && children[j].mostRecent.None?
        invariant forall j :: 0 <= j < i ==> children[j].name in table && table[children[j].name] == children[j]
        invariant forall n :: n in table ==> table[n] in children && table[n].name == n
      {
        var c := children[i];
        c.versions, c.mostRecent := [], None;
        table := table[c.name := c];
      }
      NamedNothing();
    }

    ghost predicate TableRight(table: map<string, ServerCacheNode>)
      reads this`children
    {
      && (forall c :: c in children ==> c.name in table && table[c.name] == c)
      && forall n :: n in table ==> table[n] in children && table[n].name == n
    }

    /** The child with the name, made if it is not in the table. */
    method ChildFor(table: map<string, ServerCacheNode>, name: string) returns (c: ServerCacheNode, more: map<string, ServerCacheNode>)
      requires Family() && TableRight(table)
      modifies this`children
      ensures Family() && TableRight(more) && more.Keys == table.Keys + {name}
      ensures c in children && c.name == name
      ensures name in table ==> children == old(children)
      ensures name !in table ==>
                && children == old(children) + [c] && fresh(c) && c.versions == [] && c.mostRecent.None? && c.children == [] && !c.cached
                && c.connectionIndex == connection.connectionIndex
    {
      if name in table { return table[name], table; }
      hide UniqueNames;
      c := new ServerCacheNode.Below(this, name);
      OneMore(children, c);
      children := children + [c];
      more := table[name := c];
    }

    method AddVersion(c: ServerCacheNode, v: Version)
      modifies c`versions
      ensures c.versions == old(c.versions) + [v]
    {
      c.versions := c.versions + [v];
    }

    /** Every child has the versions of its name, and no most recent one worked out. */
    ghost predicate Holds(dir: seq<DirEntry>)
      reads this`children, children`versions, children`mostRecent
    {
      forall c :: c in children ==> c.versions == Named(dir, c.name) && c.mostRecent.None?
    }

    /** The children from the `k`th on are new ones. */
    ghost predicate NewFrom(k: nat)
      reads this`children, children`versions, children`children, children`cached, children`connectionIndex, connection`connectionIndex
    {
      forall i :: k <= i < |children| ==>
        && children[i].children == [] && !children[i].cached && children[i].versions != []
        && children[i].connectionIndex == connection.connectionIndex
    }

    /** Give an entry, the next after those of `dir`, to the child with its name. */
    method TakeEntry(table: map<string, ServerCacheNode>, e: DirEntry, ghost dir: seq<DirEntry>, ghost k: nat)
      returns (more: map<string, ServerCacheNode>)
      requires Family() && TableRight(table) && Holds(dir) && NewFrom(k) && k <= |children|
      requires e.name !in table ==> Named(dir, e.name) == []
      modifies this`children, children`versions
      ensures Family() && TableRight(more) && more.Keys == table.Keys + {e.name} && Holds(dir + [e]) && NewFrom(k)
      ensures old(children) <= children && forall i :: |old(children)| <= i < |children| ==> fresh(children[i])
    {
      hide Named, UniqueNames, Under, TableRight;
      NamedNext(dir, e);
      var c;
      c, more := ChildFor(table, e.name);
      assert c in old(children) || fresh(c);
      label found:
      AddVersion(c, e.version);
      forall d | d in children
        ensures d.versions == Named(dir + [e], d.name) && d.mostRecent.None?
      {
        assert old@found(d.versions) == Named(dir, d.name);
        OnlyOneNamed(children, c, d);
      }
    }

    /** Give every entry of the listing to the child with its name, making those that are not there. */
    method AddVersions(dir: seq<DirEntry>, table0: map<string, ServerCacheNode>)
      requires Family() && TableRight(table0) && Holds([])
      modifies this`children, children`versions
      ensures Family() && Holds(dir) && NewFrom(|old(children)|)
      ensures old(children) <= children && forall i :: |old(children)| <= i < |children| ==> fresh(children[i])
      ensures forall e :: e in dir ==> exists c :: c in children && c.name == e.name
    {
      hide Named, Holds, NewFrom, UniqueNames, Under;
      var table := table0;
      ghost var first := children;
      NoneNew();
      for i := 0 to |dir|
        invariant Family() && TableRight(table) && Holds(dir[..i]) && NewFrom(|first|)
        invariant first <= children && forall k :: |first| <= k < |children| ==> fresh(children[k])
        invariant forall j :: 0 <= j < i ==> dir[j].name in table
      {
        NotNamedYet(dir, i, table, dir[i].name);
        assert dir[..i] + [dir[i]] == dir[..i + 1];
        assert forall c :: c in children ==> c in first || fresh(c);
        table := TakeEntry(table, dir[i], dir[..i], |first|);
      }
      assert dir[..|dir|] == dir;
    }

    method TakeListing(id: int, dir: seq<DirEntry>)
      requires Family()
      modifies this`children, this`listing, this`listedId, this`cached, this`connectionIndex, children`versions, children`mostRecent
      ensures Family() && Holds(dir) && NewFrom(|old(children)|) && listing == dir && listedId == id && Current()
      ensures old(children) <= children && forall i :: |old(children)| <= i < |children| ==> fresh(children[i])
      ensures forall e :: e in dir ==> exists c :: c in children && c.name == e.name
    {
      hide Named, UniqueNames, Under, TableRight, Holds;
      var table := ForgetVersions();
      AddVersions(dir, table);
      listing, listedId, cached, connectionIndex := dir, id, true, connection.connectionIndex;
    }

    /** The children from the cache, or else from the server, for the id of the most recent version. */
    method GetChildren(server: Store) returns (ok: bool)
      requires Valid()
      modifies this, connection, children`versions, children`mostRecent
      ensures Valid() && versions == old(versions) && old(children) <= children && NewFrom(|old(children)|)
      ensures forall i :: |old(children)| <= i < |children| ==> fresh(children[i])
      ensures old(connection.connectionIndex) <= connection.connectionIndex && old(connection.answers) <= connection.answers
      ensures ok ==> Current()
      ensures old(Current()) ==> ok && unchanged(this) && unchanged(connection)
      ensures old(Current()) || !ok ==> children == old(children) && forall c :: c in children ==> c.versions == old(c.versions)
      ensures ok && !old(Current()) ==>
                && MostRecent(versions).Some? && listedId == MostRecent(versions).value.id && listing == server(listedId)
                && forall e :: e in listing ==> exists c :: c in children && c.name == e.name
    {
      hide Named, UniqueNames, Under, TableRight, Holds, NewFrom, MostRecent;
      NoneNew();
      NotOwnChild();
      if cached && connectionIndex == connection.connectionIndex { return true; }
      var version := GetMostRecent();
      if version.None? { return false; }
      var dir := connection.ListDirectory(version.value.id, server);
      if dir.None? {
        NoneNew();
        return false;
      }
      TakeListing(version.value.id, dir.value);
      HoldsIsRight();
      return true;
    }

    lemma NewAreValid(k: nat)
      requires Valid() && NewFrom(k)
      ensures forall i :: k <= i < |children| ==> children[i].Valid() && children[i].children == [] && children[i].connection == connection
    {
      forall i | k <= i < |children|
        ensures children[i].Valid()
      {
        assert children[i] in children;
      }
    }

    lemma HoldsIsRight()
      requires Holds(listing)
      ensures CacheRight() && forall c :: c in children ==> c.MemoRight()
    {
    }

    lemma NotOwnChild()
      requires Family()
      ensures this !in children
    {
    }

    lemma NamedNothing()
      ensures forall n :: Named([], n) == []
    {
    }

    lemma NoneNew()
      ensures NewFrom(|children|)
    {
    }
  }

  /** The root and all nodes below it that have been made, over one connection. */
  function AllOf(nodes: seq<ServerCacheNode>): set<ServerCacheNode> {
    set n | n in nodes
  }

  class ServerCache {
    const connection: ServerConnection
    const root: ServerCacheNode
    /** All of them, so that a run can go to any. */
    var nodes: set<ServerCacheNode>

    constructor (connection: ServerConnection)
      ensures Valid() && this.connection == connection && fresh(root) && nodes == {root}
    {
      this.connection := connection;
      root := new ServerCacheNode.Root(connection);
      nodes := {root};
    }

    /** Every node is right, and so are its children, which are nodes as well. */
    ghost predicate Valid()
      reads this, nodes, connection
    {
      root in nodes && forall n :: n in nodes ==> NodeRight(n)
    }

    ghost predicate NodeRight(n: ServerCacheNode)
      requires n in nodes
      reads this, nodes, connection
    {
      n.connection == connection && (forall c :: c in n.children ==> c in nodes) && n.Valid()
    }

    /** The children of a node come from a listing on the present connection, and are what that listing said. */
    ghost predicate UpToDate(n: ServerCacheNode)
      requires n in nodes
      reads this, nodes, connection
    {
      && Answer(connection.connectionIndex, n.listedId, n.listing) in connection.answers
      && forall c :: c in n.children ==> c in nodes && c.versions == Named(n.listing, c.name)
    }

    method GetChildren(n: ServerCacheNode, server: Store) returns (ok: bool)
      requires Valid() && n in nodes
      modifies this`nodes, nodes, connection
      ensures Valid() && old(nodes) <= nodes && fresh(nodes - old(nodes))
      ensures old(connection.connectionIndex) <= connection.connectionIndex
      ensures old(n.children) <= n.children && forall m :: m in old(nodes) && m != n ==> m.children == old(m.children)
      ensures ok ==> UpToDate(n)
      ensures ok ==>
                && Answer(connection.connectionIndex, n.listedId, n.listing) in connection.answers
                && forall c :: c in n.children ==> c.versions == Named(n.listing, c.name)
      ensures ok && !old(n.Current()) ==> MostRecent(n.versions).Some? && n.listing == server(MostRecent(n.versions).value.id)
      ensures old(n.Current()) ==> ok && nodes == old(nodes) && n.listing == old(n.listing)
      ensures !ok ==> nodes == old(nodes) && n.children == old(n.children)
    {
      hide MostRecent, Named, UniqueNames, ServerCacheNode.Under;
      assert NodeRight(n);
      ok := n.GetChildren(server);
      nodes := nodes + AllOf(n.children);
      assert n.children == old(n.children) ==> nodes == old(nodes);
      OthersStayRight(n);
      AllStayRight(n);
    }

    /** With the others right, and the new ones children of `n`, all are. */
    twostate lemma AllStayRight(n: ServerCacheNode)
      requires n in old(nodes) && n in nodes && nodes == old(nodes) + AllOf(n.children) && root in nodes
      requires n.Valid() && n.connection == connection && old(n.children) <= n.children && n.NewFrom(|old(n.children)|)
      requires forall c :: c in old(n.children) ==> c in old(nodes)
      requires forall m :: m in old(nodes) && m != n ==> NodeRight(m)
      ensures Valid()
    {
      n.NewAreValid(|old(n.children)|);
      assert forall j :: 0 <= j < |old(n.children)| ==> n.children[j] in old(n.children);
      forall m | m in nodes && m !in old(nodes)
        ensures NodeRight(m)
      {
        var i :| 0 <= i < |n.children| && n.children[i] == m;
      }
    }

    twostate lemma OthersStayRight(n: ServerCacheNode)
      requires old(Valid()) && old(nodes) <= nodes && n in old(nodes)
      requires n.Valid() && n.versions == old(n.versions) && n.connection == connection
      requires forall o :: o in old(nodes) && o != n && o !in old(n.children) ==> unchanged(o)
      requires forall o :: o in old(nodes) && o != n ==> unchanged(o`children, o`cached, o`connectionIndex, o`listing, o`listedId)
      requires forall o :: o in old(n.children) ==> o in n.children
      requires old(connection.connectionIndex) <= connection.connectionIndex && old(connection.answers) <= connection.answers
      ensures forall m :: m in old(nodes) && m != n ==> NodeRight(m)
    {
      hide MostRecent, Named, UniqueNames;
      assert old(NodeRight(n));
      assert forall c :: c in old(n.children) ==> c.parent == n;
      forall m | m in old(nodes) && m != n
        ensures NodeRight(m)
      {
        assert old(NodeRight(m));
        forall c | c in m.children
          ensures c.versions == old(c.versions) && c.MemoRight() && c in nodes
        {
          assert c.parent == m;
          assert old(NodeRight(c));
        }
      }
    }

    method Connect(writable: bool) returns (ok: bool)
      requires Valid()
      modifies connection
      ensures Valid() && old(connection.connectionIndex) <= connection.connectionIndex
    {
      ok := connection.Connect(writable);
      forall n | n in nodes ensures NodeRight(n) { assert old(NodeRight(n)); }
    }

    method Disconnect()
      requires Valid()
      modifies connection
      ensures Valid() && connection.connectionIndex == old(connection.connectionIndex)
    {
      connection.Disconnect();
      forall n | n in nodes ensures NodeRight(n) { assert old(NodeRight(n)); }
    }

    /** Any sequence of listings, connections and disconnections, on any nodes. */
    method Browse(turns: nat)
      requires Valid()
      modifies this`nodes, nodes, connection
      ensures Valid() && old(nodes) <= nodes && fresh(nodes - old(nodes))
      ensures forall n :: n in old(nodes) ==> old(n.children) <= n.children
      ensures forall n :: n in nodes && n.Current() ==> UpToDate(n)
      ensures forall n :: n in nodes && n.cached && n.connectionIndex == connection.connectionIndex ==>
                && Answer(connection.connectionIndex, n.listedId, n.listing) in connection.answers
                && forall c :: c in n.children ==> c.versions == Named(n.listing, c.name)
    {
      hide NodeRight;
      for i := 0 to turns
        invariant Valid() && old(nodes) <= nodes && fresh(nodes - old(nodes))
        invariant forall n :: n in old(nodes) ==> old(n.children) <= n.children
      {
        if * {
          SomeNode();
          var n :| n in nodes;
          var server: Store := *;
          var _ := GetChildren(n, server);
        } else if * {
          var writable: bool := *;
          var _ := Connect(writable);
        } else {
          Disconnect();
        }
      }
      forall n | n in nodes && n.cached && n.connectionIndex == connection.connectionIndex
        ensures n.Current()
      {
        SameConnection(n);
      }
      forall n | n in nodes && n.Current()
        ensures UpToDate(n)
      {
        CurrentIsUpToDate(n);
      }
    }

    lemma SomeNode()
      requires Valid()
      ensures exists n :: n in nodes
    {
    }

    lemma SameConnection(n: ServerCacheNode)
      requires Valid() && n in nodes
      ensures n.connection == connection
    {
      assert NodeRight(n);
    }

    lemma CurrentIsUpToDate(n: ServerCacheNode)
      requires Valid() && n in nodes && n.Current()
      ensures UpToDate(n)
    {
      assert NodeRight(n);
    }
  }

  lemma NamedNext(dir: seq<DirEntry>, e: DirEntry)
    ensures forall n :: Named(dir + [e], n) == Named(dir, n) + if e.name == n then [e.version] else []
  {
    assert (dir + [e])[..|dir|] == dir;
  }

  lemma NotNamedYet(dir: seq<DirEntry>, i: nat, table: map<string, ServerCacheNode>, name: string)
    requires i <= |dir| && forall j :: 0 <= j < i ==> dir[j].name in table
    ensures name !in table ==> Named(dir[..i], name) == []
  {
    NamedIsThere(dir[..i], name);
  }
}
