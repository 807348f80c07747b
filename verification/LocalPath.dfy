/** File names and the full path strings made from them. */
module LocalPath {
  import opened Common

  type Path = seq<string>

  /** A file name as a directory can hold it. */
  predicate GoodName(n: string) {
    n != "" && '/' !in n
  }

  ghost predicate GoodPath(p: Path) {
    forall i :: 0 <= i < |p| ==> GoodName(p[i])
  }

  ghost predicate AtOrBelow(p: Path, q: Path) {
    p <= q
  }

  lemma BelowChild(p: Path, name: string, q: Path)
    ensures AtOrBelow(p + [name], q) <==> AtOrBelow(p, q) && |q| > |p| && q[|p|] == name
  {
    if AtOrBelow(p + [name], q) {
      assert q[|p|] == (p + [name])[|p|];
      assert q[..|p|] == q[..|p| + 1][..|p|] == p;
    }
    if AtOrBelow(p, q) && |q| > |p| && q[|p|] == name {
      assert q[..|p| + 1] == p + [name];
    }
  }

  /** Every name preceded by a separator; empty for the root. */
  function Below(p: Path): (s: string)
    ensures s != "" ==> s[0] == '/'
    ensures p != [] ==> s != ""
  {
    if p == [] then "" else "/" + p[0] + Below(p[1..])
  }

  function FullPath(p: Path): string {
    if p == [] then "/" else Below(p)
  }

  lemma {:induction false} BelowAppend(p: Path, q: Path)
    ensures Below(p + q) == Below(p) + Below(q)
  {
    if p == [] {
      assert p + q == q;
    } else {
      assert (p + q)[0] == p[0] && (p + q)[1..] == p[1..] + q;
      BelowAppend(p[1..], q);
      assert Below(p + q) == "/" + p[0] + (Below(p[1..]) + Below(q));
    }
  }

  /** The path of a directory entry is the directory's path, a separator and the name. */
  lemma FullPathOfChild(p: Path, n: string)
    ensures FullPath(p + [n]) == Below(p) + "/" + n
  {
    BelowAppend(p, [n]);
    BelowOfOne(n);
    hide Below;
    assert p + [n] != [];
    Regroup(Below(p), "/", n);
  }

  /** How path strings look, for the root, for what is in it, and for what is in a directory. */
  lemma PathText(p: Path, n: string)
    ensures FullPath([]) == "/" && FullPath([n]) == "/" + n
    ensures p != [] ==> FullPath(p + [n]) == FullPath(p) + "/" + n
  {
    FullPathOfChild(p, n);
    BelowOfOne(n);
  }

  lemma BelowOfOne(n: string)
    ensures Below([n]) == "/" + n
  {
    var p: Path := [n];
    assert p[1..] == [];
    assert "/" + n + "" == "/" + n;
  }

  /** A name ends where the first separator is. */
  lemma NameEnds(n: string, m: string, s: string, t: string)
    requires '/' !in n && '/' !in m
    requires (s != "" ==> s[0] == '/') && t != "" && t[0] == '/'
    requires |n + s| >= |m + t| && (n + s)[..|m + t|] == m + t
    ensures n == m && s[..|t|] == t
  {
    var whole := n + s;
    assert forall i :: 0 <= i < |n| ==> n[i] in n && whole[i] == n[i];
    assert forall i :: 0 <= i < |m| ==> m[i] in m && whole[i] == (m + t)[i] == m[i];
    assert whole[|m|] == (m + t)[|m|] == '/';
    assert |n| < |whole| ==> s != "" && whole[|n|] == s[0] == '/';
    assert |n| == |m|;
    assert n == whole[..|n|] && m == (m + t)[..|m|];
    assert s == whole[|n|..] && t == (m + t)[|m|..];
  }

  lemma FirstName(n: string, m: string, s: string, t: string)
    requires '/' !in n && '/' !in m
    requires (s != "" ==> s[0] == '/') && t != "" && t[0] == '/'
    ensures "/" + m + t <= "/" + n + s <==> m == n && t <= s
  {
    var a, b := "/" + m + t, "/" + n + s;
    assert a[1..] == m + t && b[1..] == n + s;
    if a <= b {
      assert b[..|a|][1..] == b[1..][..|a| - 1];
      NameEnds(n, m, s, t);
    }
  }

  /** With a separator after it, one path string begins another exactly for a directory above. */
  lemma {:induction false} BelowPrefix(p: Path, q: Path)
    requires GoodPath(p) && GoodPath(q)
    ensures Below(p) + "/" <= Below(q) <==> p < q
  {
    if p == [] {
      assert Below(p) + "/" == "/";
      if q != [] { assert Below(q)[..1] == "/"; }
    } else if q != [] {
      var s, t := Below(q[1..]), Below(p[1..]) + "/";
      assert Below(p) + "/" == "/" + p[0] + t;
      FirstName(q[0], p[0], s, t);
      BelowPrefix(p[1..], q[1..]);
      assert p < q <==> p[0] == q[0] && p[1..] < q[1..] by {
        assert p == [p[0]] + p[1..] && q == [q[0]] + q[1..];
      }
    }
  }

  lemma SplitBelow(m: string, n: string, s: string, t: string)
    requires '/' !in m && '/' !in n && (s != "" ==> s[0] == '/') && (t != "" ==> t[0] == '/')
    requires "/" + m + s == "/" + n + t
    ensures m == n && s == t
  {
    var u, v := s + "/", t + "/";
    assert "/" + m + u == "/" + m + s + "/" && "/" + n + v == "/" + n + t + "/";
    FirstName(n, m, v, u);
    FirstName(m, n, u, v);
    assert s == u[..|u| - 1] && t == v[..|v| - 1];
  }

  lemma {:induction false} BelowInjective(p: Path, q: Path)
    requires GoodPath(p) && GoodPath(q)
    requires Below(p) == Below(q)
    ensures p == q
  {
    if p != [] && q != [] {
      SplitBelow(p[0], q[0], Below(p[1..]), Below(q[1..]));
      BelowInjective(p[1..], q[1..]);
      assert q == [q[0]] + q[1..] && p == [p[0]] + p[1..];
    }
  }

  lemma FullPathInjective(p: Path, q: Path)
    requires GoodPath(p) && GoodPath(q)
    ensures FullPath(p) == FullPath(q) <==> p == q
  {
    if p == [] && q != [] {
      assert Below(q) == "/" + q[0] + Below(q[1..]);
      assert |Below(q)| > 1;
    } else if q == [] && p != [] {
      assert Below(p) == "/" + p[0] + Below(p[1..]);
      assert |Below(p)| > 1;
    } else if FullPath(p) == FullPath(q) {
      BelowInjective(p, q);
    }
  }
}
