/**
 * The restore tree: which server nodes are marked for restoring (src/RestoreFilesPanel.cc). A
 * list of include and exclude marks, sorted by path, decides what each node shows.
 */
module RestoreSelection {
  import opened Common
  import opened LocalPath

  // ----- the cached server tree -----

  datatype Version = Version(id: int, isDir: bool, isDeleted: bool, sizeInBlocks: nat, time: int)

  datatype CacheNode = CacheNode(name: string, versions: seq<Version>, children: seq<CacheNode>)

  function ChildNamed(cs: seq<CacheNode>, n: string): (r: Option<CacheNode>)
    ensures r.Some? ==> r.value in cs && r.value.name == n
  {
    if cs == [] then None else if cs[0].name == n then Some(cs[0]) else ChildNamed(cs[1..], n)
  }

  function NodeAt(root: CacheNode, p: Path): Option<CacheNode>
    decreases |p|
  {
    if p == [] then Some(root)
    else
      var c := ChildNamed(root.children, p[0]);
      if c.None? then None else NodeAt(c.value, p[1..])
  }

  /** Names are good, and unique among siblings. */
  ghost predicate WellFormed(n: CacheNode) {
    && (forall i, j :: 0 <= i < j < |n.children| ==> n.children[i].name != n.children[j].name)
    && (forall c :: c in n.children ==> GoodName(c.name) && WellFormed(c))
  }

  lemma {:induction false} ChildAtIndex(cs: seq<CacheNode>, i: nat)
    requires i < |cs| && forall a, b :: 0 <= a < b < |cs| ==> cs[a].name != cs[b].name
    ensures ChildNamed(cs, cs[i].name) == Some(cs[i])
  {
    if i > 0 {
      ChildAtIndex(cs[1..], i - 1);
    }
  }

  lemma {:induction false} NodeAtChild(root: CacheNode, p: Path, i: nat)
    requires WellFormed(root) && NodeAt(root, p).Some? && i < |NodeAt(root, p).value.children|
    ensures var c := NodeAt(root, p).value.children[i];
            NodeAt(root, p + [c.name]) == Some(c) && GoodName(c.name) && WellFormed(c)
    decreases |p|
  {
    var c := NodeAt(root, p).value.children[i];
    if p == [] {
      assert p + [c.name] == [c.name] && (p + [c.name])[1..] == [];
      ChildAtIndex(root.children, i);
      assert c in root.children;
    } else {
      assert (p + [c.name])[0] == p[0] && (p + [c.name])[1..] == p[1..] + [c.name];
      NodeAtChild(ChildNamed(root.children, p[0]).value, p[1..], i);
    }
  }

  lemma {:induction false} WellFormedAt(root: CacheNode, p: Path)
    requires WellFormed(root) && NodeAt(root, p).Some?
    ensures WellFormed(NodeAt(root, p).value) && GoodPath(p)
    decreases |p|
  {
    if p != [] {
      WellFormedAt(ChildNamed(root.children, p[0]).value, p[1..]);
      assert p == [p[0]] + p[1..];
    }
  }

  lemma {:induction false} NodeAtAppend(root: CacheNode, p: Path, q: Path)
    ensures NodeAt(root, p + q) == if NodeAt(root, p).None? then None else NodeAt(NodeAt(root, p).value, q)
    decreases |p|
  {
    if p == [] {
      assert p + q == q;
    } else {
      assert (p + q)[0] == p[0] && (p + q)[1..] == p[1..] + q;
      if ChildNamed(root.children, p[0]).Some? {
        NodeAtAppend(ChildNamed(root.children, p[0]).value, p[1..], q);
      }
    }
  }

  /** Every prefix of a path in the tree is in the tree, each a child of the one before. */
  lemma {:induction false} NodeAtPrefix(root: CacheNode, p: Path, j: nat)
    requires NodeAt(root, p).Some? && j <= |p|
    ensures NodeAt(root, p[..j]).Some?
    ensures j < |p| ==> exists i :: 0 <= i < |NodeAt(root, p[..j]).value.children| &&
                                    NodeAt(root, p[..j]).value.children[i].name == p[j]
    decreases |p|
  {
    if j > 0 {
      assert p[..j][0] == p[0] && p[..j][1..] == p[1..][..j - 1];
      NodeAtPrefix(ChildNamed(root.children, p[0]).value, p[1..], j - 1);
    } else if p != [] {
      var c := ChildNamed(root.children, p[0]).value;
      var i :| 0 <= i < |root.children| && root.children[i] == c;
    }
  }

  // ----- the order of the marks -----

  /** Strings compared character by character. */
  predicate Less(a: string, b: string) {
    if b == "" then false
    else if a == "" then true
    else if a[0] != b[0] then a[0] < b[0]
    else Less(a[1..], b[1..])
  }

  /** At the first place where they differ the smaller character decides; a beginning of a string comes before it. */
  lemma {:induction false} LessExactly(a: string, b: string)
    ensures Less(a, b) <==> a < b || exists k :: 0 <= k < |a| && k < |b| && a[..k] == b[..k] && a[k] < b[k]
  {
    if a != "" && b != "" {
      LessExactly(a[1..], b[1..]);
      assert a == [a[0]] + a[1..] && b == [b[0]] + b[1..];
      if a[0] == b[0] {
        assert a < b <==> a[1..] < b[1..];
        if k :| 0 <= k < |a[1..]| && k < |b[1..]| && a[1..][..k] == b[1..][..k] && a[1..][k] < b[1..][k] {
          assert a[..k + 1] == [a[0]] + a[1..][..k] && b[..k + 1] == [b[0]] + b[1..][..k];
          assert a[k + 1] < b[k + 1];
        }
        if k :| 0 <= k < |a| && k < |b| && a[..k] == b[..k] && a[k] < b[k] {
          assert a[1..][..k - 1] == a[..k][1..] && b[1..][..k - 1] == b[..k][1..];
          assert a[1..][k - 1] < b[1..][k - 1];
        }
      } else if a[0] < b[0] {
        assert a[..0] == b[..0];
      } else {
        assert forall k :: 0 < k < |a| && k < |b| ==> a[..k][0] == a[0] && b[..k][0] == b[0];
      }
    }
  }

  lemma {:induction false} LessTransitive(a: string, b: string, c: string)
    requires Less(a, b) && !Less(c, b)
    ensures Less(a, c)
  {
    if a != "" && a[0] == b[0] && c != "" && c[0] == b[0] {
      LessTransitive(a[1..], b[1..], c[1..]);
    }
  }

  lemma {:induction false} PrefixIsLess(a: string, b: string)
    requires a < b
    ensures Less(a, b)
  {
    if a != "" {
      assert a[0] == b[0] && a[1..] == b[..|a|][1..] == b[1..][..|a| - 1];
      PrefixIsLess(a[1..], b[1..]);
    }
  }

  /** The path string of a directory comes before those of everything below it. */
  lemma AncestorIsLess(p: Path, q: Path)
    requires p < q && GoodPath(q)
    ensures Less(FullPath(p), FullPath(q))
  {
    assert q == p + q[|p|..];
    BelowAppend(p, q[|p|..]);
    if p == [] {
      assert GoodName(q[0]) && Below(q) == "/" + q[0] + Below(q[1..]);
      assert "/" < FullPath(q);
    } else {
      assert FullPath(p) <= FullPath(q) && FullPath(q)[|FullPath(p)|..] == Below(q[|p|..]);
    }
    PrefixIsLess(FullPath(p), FullPath(q));
  }

  // ----- the list of marks -----

  datatype SpecEntry = SpecEntry(node: Path, isInclude: bool)

  predicate SortsAfter(e: SpecEntry, f: SpecEntry) {
    Less(FullPath(f.node), FullPath(e.node))
  }

  /** Sorted by path string, with no entry twice. */
  ghost predicate Ordered(es: seq<SpecEntry>) {
    es == [] ||
    (es[0] !in es[1..] && (forall e :: e in es[1..] ==> !SortsAfter(es[0], e)) && Ordered(es[1..]))
  }

  ghost predicate GoodPaths(es: seq<SpecEntry>) {
    forall e :: e in es ==> GoodPath(e.node)
  }

  lemma {:induction false} OrderedAt(es: seq<SpecEntry>, i: nat, j: nat)
    requires Ordered(es) && i < j < |es|
    ensures es[i] != es[j] && !SortsAfter(es[i], es[j])
  {
    hide SortsAfter;
    if i == 0 {
      assert es[j] == es[1..][j - 1];
    } else {
      OrderedAt(es[1..], i - 1, j - 1);
    }
  }

  /** Before the first entry with a greater path, or at the end. */
  function Insert(es: seq<SpecEntry>, e: SpecEntry): (r: seq<SpecEntry>)
    ensures forall x :: x in r <==> x == e || x in es
  {
    if es == [] then [e]
    else if SortsAfter(es[0], e) then [e] + es
    else [es[0]] + Insert(es[1..], e)
  }

  function AddEntry(es: seq<SpecEntry>, e: SpecEntry): (r: seq<SpecEntry>)
    ensures forall x :: x in r <==> x == e || x in es
  {
    if e in es then es else Insert(es, e)
  }

  function RemoveEntry(es: seq<SpecEntry>, e: SpecEntry): (r: seq<SpecEntry>)
    ensures forall x :: x in r ==> x in es
    ensures forall x :: x in es && x != e ==> x in r
  {
    if es == [] then []
    else if es[0] == e then es[1..]
    else [es[0]] + RemoveEntry(es[1..], e)
  }

  lemma {:induction false} InsertKeepsOrder(es: seq<SpecEntry>, e: SpecEntry)
    requires Ordered(es) && e !in es
    ensures Ordered(Insert(es, e))
  {
    if es != [] {
      var path, head := FullPath(e.node), FullPath(es[0].node);
      if SortsAfter(es[0], e) {
        forall x | x in es
          ensures !SortsAfter(e, x)
        {
          if x != es[0] {
            assert x in es[1..];
            LessAsymmetric(path, head);
            if Less(FullPath(x.node), path) {
              LessTransitive(FullPath(x.node), path, head);
            }
          } else {
            LessAsymmetric(path, head);
          }
        }
        assert ([e] + es)[1..] == es;
      } else {
        InsertKeepsOrder(es[1..], e);
        assert ([es[0]] + Insert(es[1..], e))[1..] == Insert(es[1..], e);
      }
    }
  }

  lemma {:induction false} LessAsymmetric(a: string, b: string)
    requires Less(a, b)
    ensures !Less(b, a)
  {
    if a != "" && a[0] == b[0] { LessAsymmetric(a[1..], b[1..]); }
  }

  lemma {:induction false} AddKeepsOrder(es: seq<SpecEntry>, e: SpecEntry)
    requires Ordered(es)
    ensures Ordered(AddEntry(es, e))
  {
    if e !in es { InsertKeepsOrder(es, e); }
  }

  /** Removing an entry leaves all others, in order, and no other copy of it. */
  lemma {:induction false} RemoveKeepsOrder(es: seq<SpecEntry>, e: SpecEntry)
    requires Ordered(es)
    ensures Ordered(RemoveEntry(es, e)) && e !in RemoveEntry(es, e)
  {
    if es != [] && es[0] != e {
      RemoveKeepsOrder(es[1..], e);
      assert ([es[0]] + RemoveEntry(es[1..], e))[1..] == RemoveEntry(es[1..], e);
    }
  }

  lemma {:induction false} InsertAt(es: seq<SpecEntry>, e: SpecEntry, i: nat)
    requires i <= |es| && (forall j :: 0 <= j < i ==> !SortsAfter(es[j], e)) && (i < |es| ==> SortsAfter(es[i], e))
    ensures Insert(es, e) == es[..i] + [e] + es[i..]
  {
    hide SortsAfter;
    if i > 0 {
      var rest := es[1..];
      assert forall j :: 0 <= j < |rest| ==> rest[j] == es[j + 1];
      InsertAt(rest, e, i - 1);
      hide Insert;
      assert [es[0]] + rest[..i - 1] == es[..i] && rest[i - 1..] == es[i..];
      Regroup([es[0]], rest[..i - 1], [e]);
      Regroup([es[0]], rest[..i - 1] + [e], rest[i - 1..]);
    } else {
      assert es[..0] == [] && es[0..] == es;
    }
  }

  lemma {:induction false} RemoveAt(es: seq<SpecEntry>, e: SpecEntry, i: nat)
    requires i <= |es| && e !in es[..i] && (i < |es| ==> es[i] == e)
    ensures RemoveEntry(es, e) == es[..i] + if i < |es| then es[i + 1..] else []
  {
    if i > 0 {
      assert es[0] == es[..i][0] && es[1..][..i - 1] == es[..i][1..];
      RemoveAt(es[1..], e, i - 1);
      assert es[..i] == [es[0]] + es[1..][..i - 1] && (i < |es| ==> es[i + 1..] == es[1..][i..]);
    }
  }

  class RestoreSpec {
    var entries: seq<SpecEntry>

    constructor (entries: seq<SpecEntry>)
      ensures this.entries == entries
    {
      this.entries := entries;
    }

    method Add(e: SpecEntry)
      modifies this
      ensures entries == AddEntry(old(entries), e)
      ensures old(Ordered(entries)) ==> Ordered(entries)
    {
      hide Ordered, Insert, SortsAfter, Less, FullPath;
      if Ordered(entries) { AddKeepsOrder(entries, e); }
      for i := 0 to |entries|
        invariant e !in entries[..i]
      {
        if entries[i] == e { return; }
      }
      for i := 0 to |entries|
        invariant forall j :: 0 <= j < i ==> !SortsAfter(entries[j], e)
      {
        if SortsAfter(entries[i], e) {
          InsertAt(entries, e, i);
          entries := entries[..i] + [e] + entries[i..];
          return;
        }
      }
      InsertAt(entries, e, |entries|);
      entries := entries + [e];
    }

    method Remove(e: SpecEntry)
      modifies this
      ensures entries == RemoveEntry(old(entries), e)
      ensures old(Ordered(entries)) ==> Ordered(entries) && e !in entries
    {
      if Ordered(entries) { RemoveKeepsOrder(entries, e); }
      for i := 0 to |entries|
        invariant e !in entries[..i]
      {
        if entries[i] == e {
          RemoveAt(entries, e, i);
          entries := entries[..i] + entries[i + 1..];
          return;
        }
      }
      RemoveAt(entries, e, |entries|);
    }
  }

  // ----- what a node shows -----

  /** The entry that a node obeys, and whether it is included. */
  datatype Mark = Mark(entry: Option<SpecEntry>, included: bool)

  const Unmarked := Mark(None, false)

  /** An entry that agrees with what the node would inherit is passed over. */
  function Updated(es: seq<SpecEntry>, parent: Mark, p: Path): Mark {
    var own := SpecEntry(p, !parent.included);
    if own in es then Mark(Some(own), own.isInclude) else parent
  }

  function MarkAt(es: seq<SpecEntry>, p: Path): (m: Mark)
    ensures m.entry.Some? ==> m.entry.value.isInclude == m.included && m.entry.value.node <= p
    ensures m.entry.None? ==> !m.included
    decreases |p|
  {
    var parent := ParentMark(es, p);
    assert p != [] && parent.entry.Some? ==> parent.entry.value.node <= p[..|p| - 1] <= p;
    Updated(es, parent, p)
  }

  function ParentMark(es: seq<SpecEntry>, p: Path): (m: Mark)
    ensures m.entry.Some? ==> m.entry.value.isInclude == m.included && m.entry.value.node < p
    ensures m.entry.None? ==> !m.included
    decreases |p|, 0
  {
    if p == [] then Unmarked
    else
      var m := MarkAt(es, p[..|p| - 1]);
      assert m.entry.Some? ==> m.entry.value.node <= p[..|p| - 1] < p;
      m
  }

  /** Only the entries for a node and for those above it matter to the node. */
  lemma {:induction false} MarkNeedsOnlyAncestors(es: seq<SpecEntry>, fs: seq<SpecEntry>, p: Path)
    requires forall e: SpecEntry :: e.node <= p ==> (e in es <==> e in fs)
    ensures MarkAt(es, p) == MarkAt(fs, p)
    decreases |p|
  {
    if p != [] {
      forall e: SpecEntry | e.node <= p[..|p| - 1]
        ensures e in es <==> e in fs
      {
        assert e.node <= p;
      }
      MarkNeedsOnlyAncestors(es, fs, p[..|p| - 1]);
    }
  }

  /** A node is as the one above it, unless it has an entry of the other sense; that is then the entry that it obeys. */
  lemma MarkExactly(es: seq<SpecEntry>, p: Path)
    ensures p == [] ==> MarkAt(es, p) == if SpecEntry([], true) in es then Mark(Some(SpecEntry([], true)), true) else Mark(None, false)
    ensures p != [] ==>
              var up := MarkAt(es, p[..|p| - 1]);
              MarkAt(es, p) ==
              if up.included && SpecEntry(p, false) in es then Mark(Some(SpecEntry(p, false)), false)
              else if !up.included && SpecEntry(p, true) in es then Mark(Some(SpecEntry(p, true)), true)
              else up
  {
  }

  datatype Icon = EmptyIcon | Partial | Checked | CheckedGrey | Crossed | CrossedGrey

  ghost predicate IncludedBelow(es: seq<SpecEntry>, p: Path) {
    exists e :: e in es && e.isInclude && p < e.node
  }

  ghost function IconAt(es: seq<SpecEntry>, p: Path): Icon {
    var m, inherited := MarkAt(es, p), p != [] && MarkAt(es, p).entry == ParentMark(es, p).entry;
    if m.entry.None? then (if IncludedBelow(es, p) then Partial else EmptyIcon)
    else if m.included then (if inherited then CheckedGrey else Checked)
    else (if inherited then CrossedGrey else Crossed)
  }

  function WithSlash(s: string): string
    requires s != ""
  {
    if s[|s| - 1] == '/' then s else s + "/"
  }

  predicate StartsWith(s: string, prefix: string) {
    prefix <= s
  }

  lemma {:induction false} LastOfBelow(p: Path)
    requires p != [] && GoodPath(p)
    ensures Below(p)[|Below(p)| - 1] != '/'
  {
    if |p| == 1 {
      assert Below(p[1..]) == "";
      assert Below(p) == "/" + p[0];
      assert GoodName(p[0]);
      assert Below(p)[|Below(p)| - 1] == p[0][|p[0]| - 1];
      assert p[0][|p[0]| - 1] in p[0];
    } else {
      LastOfBelow(p[1..]);
    }
  }

  /** The path strings that begin with a directory's, and a separator, are those of what is below it. */
  lemma BelowByPathString(p: Path, q: Path)
    requires GoodPath(p) && GoodPath(q)
    ensures FullPath(p) != "" && (StartsWith(FullPath(q), WithSlash(FullPath(p))) <==> p < q || p == q == [])
  {
    BelowPrefix(p, q);
    if p == [] {
      assert FullPath(q)[..1] == "/";
    } else {
      LastOfBelow(p);
    }
  }

  // ----- a click -----

  /** The marks after a click on `p`. */
  function Toggled(es: seq<SpecEntry>, p: Path): seq<SpecEntry> {
    var m := MarkAt(es, p);
    if p == [] && m.entry.Some? && m.entry.value.isInclude then RemoveEntry(es, m.entry.value)
    else if p != [] && MarkAt(es, p[..|p| - 1]).entry != m.entry then
      if m.entry.Some? then RemoveEntry(es, m.entry.value) else es
    else AddEntry(es, SpecEntry(p, m.entry.Some? ==> !m.entry.value.isInclude))
  }

  /** A click adds or removes one entry, and that entry is for the node clicked. */
  lemma ToggledIsOneEntry(es: seq<SpecEntry>, p: Path)
    requires Ordered(es)
    ensures Ordered(Toggled(es, p))
    ensures var own := SpecEntry(p, !ParentMark(es, p).included);
            && (own in es <==> own !in Toggled(es, p))
            && forall e :: e != own ==> (e in es <==> e in Toggled(es, p))
  {
    var own := SpecEntry(p, !ParentMark(es, p).included);
    AddKeepsOrder(es, own);
    RemoveKeepsOrder(es, own);
  }

  /** A click flips the node clicked, and changes no node that is not below it. */
  lemma ToggleFlips(es: seq<SpecEntry>, p: Path)
    requires Ordered(es)
    ensures MarkAt(Toggled(es, p), p).included == !MarkAt(es, p).included
    ensures forall q :: !(p <= q) ==> MarkAt(Toggled(es, p), q) == MarkAt(es, q)
  {
    ToggledIsOneEntry(es, p);
    forall q: Path | !(p <= q)
      ensures MarkAt(Toggled(es, p), q) == MarkAt(es, q)
    {
      MarkNeedsOnlyAncestors(es, Toggled(es, p), q);
    }
    if p != [] {
      assert !(p <= p[..|p| - 1]);
    }
  }

  /** What is below the node clicked and obeys the same entry flips with it. */
  lemma {:induction false} ToggleFlipsBelow(es: seq<SpecEntry>, p: Path, q: Path)
    requires Ordered(es) && p <= q && forall e :: e in es && e.node <= q ==> e.node <= p
    ensures MarkAt(Toggled(es, p), q).included == !MarkAt(es, q).included
    decreases |q|
  {
    ToggledIsOneEntry(es, p);
    if p == q {
      ToggleFlips(es, p);
    } else {
      var up := q[..|q| - 1];
      assert p <= up <= q;
      ToggleFlipsBelow(es, p, up);
      assert !(q <= p);
      assert forall b :: SpecEntry(q, b) !in es && SpecEntry(q, b) !in Toggled(es, p);
    }
  }

  /** A second click undoes the first. */
  lemma ToggleTwice(es: seq<SpecEntry>, p: Path)
    requires Ordered(es)
    ensures forall q :: MarkAt(Toggled(Toggled(es, p), p), q) == MarkAt(es, q)
  {
    var once := Toggled(es, p);
    ToggledIsOneEntry(es, p);
    ToggledIsOneEntry(once, p);
    if p != [] {
      assert !(p <= p[..|p| - 1]);
      ToggleFlips(es, p);
    }
    assert ParentMark(once, p) == ParentMark(es, p);
    forall q
      ensures MarkAt(Toggled(once, p), q) == MarkAt(es, q)
    {
      MarkNeedsOnlyAncestors(es, Toggled(once, p), q);
    }
  }

  // ----- the panel -----

  lemma SiblingsApart(n: CacheNode, p: Path, i: nat)
    requires WellFormed(n) && i < |n.children|
    ensures forall j, q :: 0 <= j < |n.children| && j != i && AtOrBelow(p + [n.children[j].name], q) ==>
              !AtOrBelow(p + [n.children[i].name], q)
    ensures forall q :: AtOrBelow(p + [n.children[i].name], q) ==> AtOrBelow(p, q) && q != p
  {
    forall j, q | 0 <= j < |n.children|
      ensures AtOrBelow(p + [n.children[j].name], q) <==> AtOrBelow(p, q) && |q| > |p| && q[|p|] == n.children[j].name
    {
      BelowChild(p, n.children[j].name, q);
    }
  }

  lemma BelowIsUnderAChild(root: CacheNode, p: Path, n: CacheNode, q: Path)
    requires NodeAt(root, p) == Some(n) && AtOrBelow(p, q) && q != p && NodeAt(root, q).Some?
    ensures exists j :: 0 <= j < |n.children| && AtOrBelow(p + [n.children[j].name], q)
  {
    assert q[..|p|] == p;
    NodeAtPrefix(root, q, |p|);
    var j :| 0 <= j < |n.children| && n.children[j].name == q[|p|];
    assert p + [n.children[j].name] == q[..|p| + 1];
  }

  /** Nothing changed for the node `q`. */
  ghost predicate Kept(marks: map<Path, Mark>, icons: map<Path, Icon>, marksNow: map<Path, Mark>, iconsNow: map<Path, Icon>, q: Path) {
    && (q in marksNow <==> q in marks) && (q in marks ==> marksNow[q] == marks[q])
    && (q in iconsNow <==> q in icons) && (q in icons ==> iconsNow[q] == icons[q])
  }

  lemma KeptThrough(m0: map<Path, Mark>, i0: map<Path, Icon>, m1: map<Path, Mark>, i1: map<Path, Icon>,
                    m2: map<Path, Mark>, i2: map<Path, Icon>, q: Path)
    requires Kept(m0, i0, m1, i1, q) && Kept(m1, i1, m2, i2, q)
    ensures Kept(m0, i0, m2, i2, q)
  {
  }

  /** Which icon is for what: full for a node with its own entry, grey for one that has it from above. */
  lemma IconExactly(es: seq<SpecEntry>, p: Path)
    ensures var m, i := MarkAt(es, p), IconAt(es, p);
            && (i == EmptyIcon <==> m.entry.None? && forall e :: e in es && e.isInclude ==> !(p < e.node))
            && (i == Partial <==> m.entry.None? && exists e :: e in es && e.isInclude && p < e.node)
            && (i == Checked <==> m.entry == Some(SpecEntry(p, true)))
            && (i == Crossed <==> m.entry == Some(SpecEntry(p, false)))
            && (i == CheckedGrey <==> m.entry.Some? && m.entry.value.isInclude && m.entry.value.node < p)
            && (i == CrossedGrey <==> m.entry.Some? && !m.entry.value.isInclude && m.entry.value.node < p)
  {
    var m := MarkAt(es, p);
    if m.entry.Some? {
      assert m.entry.value == SpecEntry(m.entry.value.node, m.entry.value.isInclude);
      if p != [] && m.entry == ParentMark(es, p).entry { assert m.entry.value.node < p; }
    }
  }

  class RestoreFilesPanel {
    /** The nodes of the tree control. */
    const tree: CacheNode
    const spec: RestoreSpec
    var marks: map<Path, Mark>
    var icons: map<Path, Icon>

    constructor (tree: CacheNode)
      ensures this.tree == tree && spec.entries == [] && fresh(spec) && marks == map[] && icons == map[]
    {
      this.tree := tree;
      spec := new RestoreSpec([]);
      marks, icons := map[], map[];
    }

    ghost predicate Marked(p: Path)
      reads this, spec
    {
      p in marks && marks[p] == MarkAt(spec.entries, p)
    }

    ghost predicate Right(p: Path)
      reads this, spec
    {
      Marked(p) && p in icons && icons[p] == IconAt(spec.entries, p)
    }

    ghost predicate AllRight()
      reads this, spec
    {
      forall p :: NodeAt(tree, p).Some? ==> Right(p)
    }

    /** Refresh the mark of a node, after those above it if asked to, and choose its icon. */
    method UpdateState(p: Path, updateParents: bool) returns (icon: Icon)
      requires GoodPath(p) && GoodPaths(spec.entries)
      requires !updateParents && p != [] ==> Marked(p[..|p| - 1])
      modifies this`marks
      ensures Marked(p) && icon == IconAt(spec.entries, p)
      ensures updateParents ==> forall j :: 0 <= j <= |p| ==> Marked(p[..j])
      ensures forall q :: !(q <= p) || (!updateParents && q != p) ==>
                (q in marks <==> q in old(marks)) && (q in marks ==> marks[q] == old(marks[q]))
      decreases |p|
    {
      hide FullPath, IncludedBelow;
      var entries := spec.entries;
      var parent := Unmarked;
      if p != [] {
        if updateParents {
          var _ := UpdateState(p[..|p| - 1], true);
          assert forall j :: 0 <= j < |p| ==> p[..|p| - 1][..j] == p[..j];
        }
        parent := marks[p[..|p| - 1]];
      }
      assert parent == ParentMark(entries, p);
      var m := parent;
      for i := 0 to |entries|
        invariant m == parent && SpecEntry(p, !parent.included) !in entries[..i]
      {
        if entries[i].node == p && entries[i].isInclude != m.included {
          m := Mark(Some(entries[i]), entries[i].isInclude);
          break;
        }
      }
      assert m == Updated(entries, parent, p) == MarkAt(entries, p);
      marks := marks[p := m];
      assert Marked(p) && p[..|p|] == p;
      assert updateParents ==> forall j :: 0 <= j < |p| ==> Marked(p[..j]);
      icon := ChooseIcon(p, m, p != [] && parent.entry == m.entry);
    }

    /** A node that is not included is shown in part if something below it is marked to be included. */
    method ChooseIcon(p: Path, m: Mark, matchesParent: bool) returns (icon: Icon)
      requires GoodPath(p) && GoodPaths(spec.entries)
      requires m == MarkAt(spec.entries, p) && (matchesParent <==> p != [] && m.entry == ParentMark(spec.entries, p).entry)
      ensures icon == IconAt(spec.entries, p)
    {
      hide FullPath, Below;
      if m.entry.None? {
        BelowByPathString(p, p);
        for i := 0 to |spec.entries|
          invariant forall j :: 0 <= j < i ==> !(spec.entries[j].isInclude && p < spec.entries[j].node)
        {
          BelowByPathString(p, spec.entries[i].node);
          if StartsWith(FullPath(spec.entries[i].node), WithSlash(FullPath(p))) && spec.entries[i].isInclude {
            return Partial;
          }
        }
        return EmptyIcon;
      } else if m.entry.value.isInclude {
        return if matchesParent then CheckedGrey else Checked;
      } else {
        return if matchesParent then CrossedGrey else Crossed;
      }
    }

    /** Refresh a node, and those above it and those below it if asked to. */
    method UpdateStateIcon(p: Path, n: CacheNode, updateParents: bool, updateChildren: bool)
      requires WellFormed(tree) && NodeAt(tree, p) == Some(n) && GoodPaths(spec.entries)
      requires !updateParents && p != [] ==> Marked(p[..|p| - 1])
      modifies this`marks, this`icons
      ensures updateParents ==> forall j :: 0 <= j <= |p| ==> Right(p[..j])
      ensures Right(p)
      ensures updateChildren ==> forall q :: AtOrBelow(p, q) && NodeAt(tree, q).Some? ==> Right(q)
      ensures forall q :: (updateParents && q <= p) || (updateChildren && AtOrBelow(p, q)) || q == p || Kept(old(marks), old(icons), marks, icons, q)
      decreases updateParents, if updateParents then |p| else 0, n
    {
      hide MarkAt, IconAt, WellFormed, NodeAt, GoodPath, GoodPaths;
      WellFormedAt(tree, p);
      ghost var m0, i0 := marks, icons;
      var icon := UpdateState(p, updateParents);
      icons := icons[p := icon];
      assert p[..|p|] == p;
      ghost var m1, i1 := marks, icons;
      assert forall q :: (updateParents && q <= p) || q == p || Kept(m0, i0, m1, i1, q);
      if updateParents && p != [] {
        NodeAtPrefix(tree, p, |p| - 1);
        UpdateStateIcon(p[..|p| - 1], NodeAt(tree, p[..|p| - 1]).value, true, false);
        assert forall j :: 0 <= j < |p| ==> p[..|p| - 1][..j] == p[..j];
        assert !(p <= p[..|p| - 1]) && Kept(m1, i1, marks, icons, p);
      }
      ghost var m2, i2 := marks, icons;
      assert forall q :: (updateParents && q <= p) || q == p || Kept(m1, i1, m2, i2, q);
      if updateChildren {
        RefreshChildren(p, n);
        assert forall j :: 0 <= j <= |p| ==> Kept(m2, i2, marks, icons, p[..j]);
      }
      forall q | !((updateParents && q <= p) || (updateChildren && AtOrBelow(p, q)) || q == p)
        ensures Kept(m0, i0, marks, icons, q)
      {
        KeptThrough(m0, i0, m1, i1, m2, i2, q);
        KeptThrough(m0, i0, m2, i2, marks, icons, q);
      }
    }

    method RefreshChildren(p: Path, n: CacheNode)
      requires WellFormed(tree) && NodeAt(tree, p) == Some(n) && GoodPaths(spec.entries) && Right(p)
      modifies this`marks, this`icons
      ensures forall q :: AtOrBelow(p, q) && NodeAt(tree, q).Some? ==> Right(q)
      ensures forall q :: (AtOrBelow(p, q) && q != p) || Kept(old(marks), old(icons), marks, icons, q)
      decreases false, 0, n, 0
    {
      hide MarkAt, IconAt, WellFormed, NodeAt;
      WellFormedAt(tree, p);
      for i := 0 to |n.children|
        invariant Right(p)
        invariant forall j, q :: 0 <= j < i && AtOrBelow(p + [n.children[j].name], q) && NodeAt(tree, q).Some? ==> Right(q)
        invariant forall q :: (AtOrBelow(p, q) && q != p) || Kept(old(marks), old(icons), marks, icons, q)
      {
        var c := n.children[i];
        NodeAtChild(tree, p, i);
        SiblingsApart(n, p, i);
        assert (p + [c.name])[..|p + [c.name]| - 1] == p;
        ghost var m, k := marks, icons;
        UpdateStateIcon(p + [c.name], c, false, true);
        forall q | !(AtOrBelow(p, q) && q != p)
          ensures Kept(old(marks), old(icons), marks, icons, q)
        {
          assert Kept(old(marks), old(icons), m, k, q) && Kept(m, k, marks, icons, q);
        }
        assert forall q :: AtOrBelow(p + [c.name], q) || Kept(m, k, marks, icons, q);
      }
      forall q | AtOrBelow(p, q) && NodeAt(tree, q).Some?
        ensures Right(q)
      {
        if q != p { BelowIsUnderAChild(tree, p, n, q); }
      }
    }

    /** Add or remove the entry that makes the difference for a node. */
    method ToggleEntry(p: Path)
      requires Marked(p) && (p != [] ==> Marked(p[..|p| - 1])) && Ordered(spec.entries)
      modifies spec
      ensures spec.entries == Toggled(old(spec.entries), p)
    {
      hide Ordered, FullPath;
      assert marks[p] == Updated(spec.entries, ParentMark(spec.entries, p), p);
      var entry := marks[p].entry;
      if p == [] && entry.Some? && entry.value.isInclude {
        spec.Remove(entry.value);
      } else if p != [] && marks[p[..|p| - 1]].entry != entry {
        spec.Remove(entry.value);
      } else {
        spec.Add(SpecEntry(p, entry.Some? ==> !entry.value.isInclude));
      }
    }

    /** A click on a node. Refreshing the node, those above and those below makes every node right again. */
    method OnTreeNodeActivate(p: Path)
      requires WellFormed(tree) && NodeAt(tree, p).Some? && AllRight()
      requires Ordered(spec.entries) && GoodPaths(spec.entries)
      modifies this`marks, this`icons, spec
      ensures spec.entries == Toggled(old(spec.entries), p)
      ensures Ordered(spec.entries) && GoodPaths(spec.entries) && AllRight()
      ensures forall q :: NodeAt(tree, q).Some? ==>
                && q in marks && marks[q] == MarkAt(spec.entries, q)
                && q in icons && icons[q] == IconAt(spec.entries, q)
    {
      hide Ordered, WellFormed, Toggled, MarkAt, IconAt, NodeAt;
      WellFormedAt(tree, p);
      if p != [] { NodeAtPrefix(tree, p, |p| - 1); }
      ghost var before := spec.entries;
      ToggleEntry(p);
      ToggledIsOneEntry(before, p);
      forall q | NodeAt(tree, q).Some? && !(q <= p) && !AtOrBelow(p, q)
        ensures MarkAt(spec.entries, q) == MarkAt(before, q) && IconAt(spec.entries, q) == IconAt(before, q)
      {
        ShownAlikeApart(before, p, q);
      }
      UpdateStateIcon(p, NodeAt(tree, p).value, true, true);
      forall q | NodeAt(tree, q).Some?
        ensures Right(q)
      {
        if q <= p {
          assert q == p[..|q|];
        }
      }
    }
  }

  lemma ShownAlikeApart(es: seq<SpecEntry>, p: Path, q: Path)
    requires Ordered(es) && !(q <= p) && !(p <= q)
    ensures MarkAt(Toggled(es, p), q) == MarkAt(es, q) && IconAt(Toggled(es, p), q) == IconAt(es, q)
  {
    hide Toggled, Ordered;
    ToggleFlips(es, p);
    ToggledIsOneEntry(es, p);
    if q != [] {
      assert q[..|q| - 1] <= q;
      assert p <= q[..|q| - 1] ==> p <= q;
      assert MarkAt(Toggled(es, p), q[..|q| - 1]) == MarkAt(es, q[..|q| - 1]);
    }
    assert forall e: SpecEntry :: q < e.node ==> (e in es <==> e in Toggled(es, p));
    assert IncludedBelow(es, q) <==> IncludedBelow(Toggled(es, p), q);
  }

  /** Every selection that clicks alone can make is sorted, without repeats. */
  function AfterClicks(clicks: seq<Path>): seq<SpecEntry> {
    if clicks == [] then [] else Toggled(AfterClicks(clicks[..|clicks| - 1]), clicks[|clicks| - 1])
  }

  lemma {:induction false} ClicksKeepOrder(clicks: seq<Path>)
    ensures Ordered(AfterClicks(clicks))
    ensures forall e :: e in AfterClicks(clicks) ==> e.node in clicks
  {
    if clicks != [] {
      var earlier, p := clicks[..|clicks| - 1], clicks[|clicks| - 1];
      ClicksKeepOrder(earlier);
      ToggledIsOneEntry(AfterClicks(earlier), p);
      assert clicks == earlier + [p];
    }
  }
}
