/** make_path: create every missing parent directory of a path, top down. */
module MakePath {
  import opened Parser

  datatype Node = Directory | RegularFile

  /** Directories and files by their components; the root is the empty list. */
  type Tree = map<seq<string>, Node>

  /** After the first `k` characters: the components closed by a slash, and the one being read. */
  function Walk(p: string, k: nat): (seq<string>, string)
    requires k <= |p|
  {
    if k == 0 then ([], "")
    else
      var (closed, open) := Walk(p, k - 1);
      if p[k - 1] != '/' then (closed, open + [p[k - 1]])
      else if open == "" then (closed, "")
      else (closed + [open], "")
  }

  /** The components of the first `k` characters; repeated slashes count once. */
  function ComponentsTo(p: string, k: nat): seq<string>
    requires k <= |p|
  {
    var (closed, open) := Walk(p, k);
    if open == "" then closed else closed + [open]
  }

  function Components(p: string): seq<string> {
    ComponentsTo(p, |p|)
  }

  lemma {:induction false} WalkPrefix(p: string, q: string, k: nat)
    requires k <= |p| && p <= q
    ensures Walk(p, k) == Walk(q, k)
  {
    if k > 0 {
      WalkPrefix(p, q, k - 1);
    }
  }

  /** Where the loop cuts the path: a slash that ends a component. */
  predicate Cut(p: string, k: nat) {
    0 < k < |p| && p[k] == '/' && p[k - 1] != '/'
  }

  /** A directory, or free and allowed to be made. `denied`: mkdir fails there for its own reasons. */
  predicate Passable(t: Tree, denied: set<seq<string>>, c: seq<string>) {
    if c in t then t[c].Directory? else c !in denied
  }

  /** The directory that would hold `c` is there. */
  predicate HasParent(t: Tree, c: seq<string>) {
    c != [] && c[..|c| - 1] in t && t[c[..|c| - 1]].Directory?
  }

  /** The path names a directory, or a free place in one where mkdir is allowed; the empty path names nothing. */
  predicate Enterable(t: Tree, denied: set<seq<string>>, p: string) {
    p != "" && Passable(t, denied, Components(p)) && (Components(p) in t || HasParent(t, Components(p)))
  }

  lemma {:induction false} WalkPiece(p: string, i: nat, j: nat)
    requires i <= j <= |p| && (forall k | i <= k < j :: p[k] != '/')
    requires Walk(p, i).1 == ""
    ensures Walk(p, j) == (Walk(p, i).0, p[i..j])
    decreases j
  {
    if i < j {
      WalkPiece(p, i, j - 1);
      assert p[i..j] == p[i..j - 1] + [p[j - 1]];
    }
  }

  /** A repeated slash anywhere changes no component. */
  lemma {:induction false} RepeatedSlash(p: string, q: string)
    ensures Components(p + "//" + q) == Components(p + "/" + q)
  {
    WalkRepeated(p, q, |q|);
  }

  lemma {:induction false} WalkRepeated(p: string, q: string, k: nat)
    requires k <= |q|
    ensures Walk(p + "//" + q, |p| + 2 + k) == Walk(p + "/" + q, |p| + 1 + k)
  {
    var a, b := p + "//" + q, p + "/" + q;
    if k == 0 {
      WalkPrefix(p, a, |p|);
      WalkPrefix(p, b, |p|);
      assert a[|p|] == '/' && a[|p| + 1] == '/' && b[|p|] == '/';
      assert Walk(a, |p| + 1) == Walk(b, |p| + 1);
    } else {
      WalkRepeated(p, q, k - 1);
      assert a[|p| + 2 + k - 1] == q[k - 1] == b[|p| + 1 + k - 1];
    }
  }

  /** The parents cut before position `k`. */
  function Parents(p: string, k: nat): set<seq<string>>
    requires k <= |p|
  {
    if k == 0 then {}
    else if Cut(p, k - 1) then Parents(p, k - 1) + {ComponentsTo(p, k - 1)}
    else Parents(p, k - 1)
  }

  /** Exactly the parents cut before `k` are directories now; nothing else changed. */
  ghost predicate Reached(before: Tree, now: Tree, denied: set<seq<string>>, p: string, k: nat) {
    && k <= |p|
    && (forall c | c in Parents(p, k) :: Passable(before, denied, c))
    && now == before + map c | c in Parents(p, k) :: Directory
  }

  lemma {:induction false} ParentsAreCuts(p: string, k: nat, c: seq<string>)
    requires k <= |p|
    ensures c in Parents(p, k) <==> exists j: nat :: j < k && Cut(p, j) && c == ComponentsTo(p, j)
  {
    if k > 0 {
      ParentsAreCuts(p, k - 1, c);
    }
  }

  lemma {:induction false} ParentsBetween(p: string, i: nat, j: nat)
    requires i <= j <= |p| && forall k | i <= k < j :: !Cut(p, k)
    ensures Parents(p, j) == Parents(p, i)
    decreases j
  {
    if i < j {
      ParentsBetween(p, i, j - 1);
    }
  }

  /** The loop is at the start of a component; `closed` are the components before it, and a directory. */
  ghost predicate AtComponent(before: Tree, now: Tree, denied: set<seq<string>>, p: string, pp: nat, closed: seq<string>) {
    && pp <= |p| && Walk(p, pp) == (closed, "")
    && Reached(before, now, denied, p, pp)
    && closed in now && now[closed].Directory?
    && forall c | c in Parents(p, pp) :: |c| <= |closed|
  }

  /** What the loop knows about the component from `pp` to the slash at `sp`. */
  lemma NextComponent(p: string, pp: nat, sp: nat, closed: seq<string>)
    requires pp < sp < |p| && p[sp] == '/' && (forall k | pp <= k < sp :: p[k] != '/')
    requires Walk(p, pp) == (closed, "")
    ensures Cut(p, sp) && forall k | pp <= k < sp :: !Cut(p, k)
    ensures ComponentsTo(p, sp) == closed + [p[pp..sp]]
    ensures Walk(p, sp + 1) == (closed + [p[pp..sp]], "")
  {
    WalkPiece(p, pp, sp);
  }

  lemma CutMade(before: Tree, now: Tree, denied: set<seq<string>>, p: string, pp: nat, sp: nat, closed: seq<string>, c: seq<string>)
    requires pp < sp < |p| && p[sp] == '/' && (forall k | pp <= k < sp :: p[k] != '/')
    requires AtComponent(before, now, denied, p, pp, closed)
    requires c == closed + [p[pp..sp]] && Passable(now, denied, c)
    ensures AtComponent(before, now[c := Directory], denied, p, sp + 1, c)
  {
    NextComponent(p, pp, sp, closed);
    ParentsBetween(p, pp, sp);
    assert Parents(p, sp + 1) == Parents(p, pp) + {c};
    assert c !in Parents(p, pp);
  }

  lemma CutFailed(before: Tree, now: Tree, denied: set<seq<string>>, p: string, pp: nat, sp: nat, closed: seq<string>, c: seq<string>)
    requires pp < sp < |p| && p[sp] == '/' && (forall k | pp <= k < sp :: p[k] != '/')
    requires AtComponent(before, now, denied, p, pp, closed)
    requires c == closed + [p[pp..sp]] && !Passable(now, denied, c)
    ensures Stopped(before, now, denied, p, sp)
  {
    NextComponent(p, pp, sp, closed);
    ParentsBetween(p, pp, sp);
    assert c !in Parents(p, pp);
  }

  lemma SlashSkipped(before: Tree, now: Tree, denied: set<seq<string>>, p: string, pp: nat, closed: seq<string>)
    requires pp < |p| && p[pp] == '/' && (pp == 0 || p[pp - 1] == '/')
    requires AtComponent(before, now, denied, p, pp, closed)
    ensures AtComponent(before, now, denied, p, pp + 1, closed)
  {
    ParentsBetween(p, pp, pp + 1);
  }

  lemma AtStart(t: Tree, denied: set<seq<string>>, p: string)
    requires [] in t && t[[]].Directory?
    ensures AtComponent(t, t, denied, p, 0, [])
  {
    assert t + (map c | c in Parents(p, 0) :: Directory) == t;
  }

  lemma NoSlashLeft(before: Tree, now: Tree, denied: set<seq<string>>, p: string, pp: nat, closed: seq<string>)
    requires AtComponent(before, now, denied, p, pp, closed) && forall k | pp <= k < |p| :: p[k] != '/'
    ensures Reached(before, now, denied, p, |p|)
  {
    ParentsBetween(p, pp, |p|);
  }

  /** `k` is the first impassable parent, and everything before it was made. */
  ghost predicate Stopped(before: Tree, now: Tree, denied: set<seq<string>>, p: string, k: nat) {
    Cut(p, k) && !Passable(before, denied, ComponentsTo(p, k)) && Reached(before, now, denied, p, k)
  }

  /** A proper prefix of the path that ends at a slash names `c`. */
  ghost predicate IsParent(p: string, c: seq<string>) {
    exists k: nat :: Cut(p, k) && c == ComponentsTo(p, k)
  }

  /** There is a file where the directory belongs, or nothing and mkdir fails. */
  predicate Blocked(t: Tree, denied: set<seq<string>>, c: seq<string>) {
    if c in t then t[c].RegularFile? else c in denied
  }

  lemma ParentsAre(p: string, c: seq<string>)
    ensures c in Parents(p, |p|) <==> IsParent(p, c)
  {
    ParentsAreCuts(p, |p|, c);
  }

  /** No entry that was there changes, whatever was reached. */
  lemma ReachedFrame(before: Tree, now: Tree, denied: set<seq<string>>, p: string, k: nat)
    requires Reached(before, now, denied, p, k)
    ensures forall c | c in before :: c in now && now[c] == before[c]
    ensures forall c | c in now && c !in before :: now[c].Directory? && IsParent(p, c)
  {
    forall c | c in Parents(p, k)
      ensures IsParent(p, c)
    {
      ParentsAreCuts(p, k, c);
    }
  }

  lemma ReachedMeans(before: Tree, now: Tree, denied: set<seq<string>>, p: string, k: nat)
    requires Reached(before, now, denied, p, k) && k == |p|
    ensures forall c | c in before :: c in now && now[c] == before[c]
    ensures forall c | c in now && c !in before :: now[c].Directory? && IsParent(p, c)
    ensures forall c | IsParent(p, c) :: c in now && now[c].Directory? && !Blocked(before, denied, c)
  {
    ReachedFrame(before, now, denied, p, k);
    forall c | IsParent(p, c)
      ensures c in Parents(p, k)
    {
      ParentsAre(p, c);
    }
  }

  lemma StoppedMeans(before: Tree, now: Tree, denied: set<seq<string>>, p: string, k: nat)
    requires Stopped(before, now, denied, p, k)
    ensures forall c | c in before :: c in now && now[c] == before[c]
    ensures forall c | c in now && c !in before :: now[c].Directory? && IsParent(p, c)
    ensures exists c :: IsParent(p, c) && Blocked(before, denied, c)
  {
    ReachedFrame(before, now, denied, p, k);
    assert IsParent(p, ComponentsTo(p, k)) && Blocked(before, denied, ComponentsTo(p, k));
  }

  // ---- Components, the other way round ----

  /** A slash before each component. */
  function Joined(cs: seq<string>): string {
    if cs == [] then "" else Joined(cs[..|cs| - 1]) + "/" + cs[|cs| - 1]
  }

  /** Reading a joined path gives the components back. */
  lemma {:induction false} ComponentsOfJoined(cs: seq<string>)
    requires forall c | c in cs :: c != "" && '/' !in c
    ensures Components(Joined(cs)) == cs
    ensures cs != [] ==> Walk(Joined(cs), |Joined(cs)|) == (cs[..|cs| - 1], cs[|cs| - 1])
  {
    if cs != [] {
      var n := |cs| - 1;
      var init, last, p := Joined(cs[..n]), cs[n], Joined(cs);
      assert last in cs && p == init + "/" + last && forall c | c in cs[..n] :: c in cs;
      ComponentsOfJoined(cs[..n]);
      WalkPrefix(init, p, |init|);
      assert p[|init|] == '/';
      assert Walk(p, |init| + 1) == (cs[..n], "") by {
        if n > 0 {
          assert cs[..n][..n - 1] + [cs[n - 1]] == cs[..n] && cs[n - 1] in cs;
        }
      }
      assert forall k | |init| + 1 <= k < |p| :: p[k] == last[k - |init| - 1];
      WalkPiece(p, |init| + 1, |p|);
      assert p[|init| + 1..|p|] == last && cs[..n] + [last] == cs;
      assert Walk(p, |init| + 1).0 == cs[..n];
      assert Walk(p, |p|) == (cs[..n], last);
    } else {
      assert Walk(Joined(cs), 0) == ([], "");
    }
  }

  /** strdup: the bytes of the path and a NUL. */
  ghost predicate Mirrors(copypath: array<char>, path: string)
    reads copypath
  {
    && copypath.Length == |path| + 1 && copypath[|path|] == '\0'
    && forall k | 0 <= k < |path| :: copypath[k] == path[k]
  }

  class FileTree {
    var nodes: Tree

    /** stat, then mkdir when there is nothing; ENOTDIR when there is a file. */
    method MkdirParent(path: string, denied: set<seq<string>>) returns (status: int)
      modifies this
      ensures status == 0 <==> Enterable(old(nodes), denied, path)
      ensures nodes == if status == 0 then old(nodes)[Components(path) := Directory] else old(nodes)
      ensures forall c | c in old(nodes) :: c in nodes && nodes[c] == old(nodes)[c]
      ensures Components(path) in old(nodes) && old(nodes)[Components(path)].RegularFile? ==> status != 0
      ensures Components(path) !in old(nodes) && Components(path) in denied ==> status != 0
    {
      var c := Components(path);
      status := 0;
      if path == "" || c !in nodes {
        if path == "" || c in denied || !HasParent(nodes, c) {
          status := -1;
        } else {
          nodes := nodes[c := Directory];
        }
      } else if !nodes[c].Directory? {
        status := -1;
      }
    }

    /** strchr(pp, '/'), or the end of the string. */
    method NextSlash(copypath: array<char>, ghost path: string, pp: nat) returns (sp: nat)
      requires '\0' !in path && Mirrors(copypath, path) && pp <= |path|
      ensures pp <= sp <= |path| && (forall k | pp <= k < sp :: path[k] != '/')
      ensures if copypath[sp] == '\0' then sp == |path| else sp < |path| && path[sp] == '/'
    {
      sp := pp;
      while copypath[sp] != '/' && copypath[sp] != '\0'
        invariant pp <= sp <= |path| && (forall k | pp <= k < sp :: path[k] != '/')
        decreases |path| - sp
      {
        sp := sp + 1;
      }
    }

    /** The loop body: cut the copy at `sp`, make the parent, restore the slash. */
    method CutAt(copypath: array<char>, ghost path: string, sp: nat, denied: set<seq<string>>, ghost closed: seq<string>)
      returns (status: int)
      requires '\0' !in path && Mirrors(copypath, path) && sp < |path| && path[sp] == '/'
      requires ComponentsTo(path, sp) != [] && ComponentsTo(path, sp)[..|ComponentsTo(path, sp)| - 1] == closed
      requires closed in nodes && nodes[closed].Directory?
      modifies this, copypath
      ensures Mirrors(copypath, path)
      ensures status == 0 <==> Passable(old(nodes), denied, ComponentsTo(path, sp))
      ensures nodes == if status == 0 then old(nodes)[ComponentsTo(path, sp) := Directory] else old(nodes)
    {
      copypath[sp] := '\0';
      assert copypath[..][..sp] == path[..sp];
      UpToNulIs(copypath[..], sp);
      WalkPrefix(path[..sp], path, sp);
      status := MkdirParent(UpToNul(copypath[..]), denied);
      copypath[sp] := '/';
    }

    /** One turn of the loop, from `pp` to the slash at `sp`; a double slash is skipped. */
    method Advance(copypath: array<char>, ghost path: string, pp: nat, sp: nat, denied: set<seq<string>>,
                   ghost before: Tree, ghost closed: seq<string>)
      returns (status: int, ghost closed': seq<string>)
      requires '\0' !in path && Mirrors(copypath, path)
      requires pp <= sp < |path| && path[sp] == '/' && (forall k | pp <= k < sp :: path[k] != '/')
      requires pp == 0 || path[pp - 1] == '/'
      requires AtComponent(before, nodes, denied, path, pp, closed)
      modifies this, copypath
      ensures Mirrors(copypath, path)
      ensures if status == 0 then AtComponent(before, nodes, denied, path, sp + 1, closed')
              else Stopped(before, nodes, denied, path, sp)
    {
      if sp != pp {
        ghost var now := nodes;
        closed' := closed + [path[pp..sp]];
        NextComponent(path, pp, sp, closed);
        assert closed'[..|closed'| - 1] == closed;
        status := CutAt(copypath, path, sp, denied, closed);
        if status == 0 {
          CutMade(before, now, denied, path, pp, sp, closed, closed');
        } else {
          CutFailed(before, now, denied, path, pp, sp, closed, closed');
        }
      } else {
        SlashSkipped(before, nodes, denied, path, pp, closed);
        status, closed' := 0, closed;
      }
    }

    method StrDup(path: string) returns (copypath: array<char>)
      ensures fresh(copypath) && Mirrors(copypath, path)
    {
      copypath := new char[|path| + 1](i => if 0 <= i < |path| then path[i] else '\0');
    }

    /**
     * On success every parent of the path is a directory; otherwise the walk
     * stopped at its first impassable parent. Existing entries never change.
     */
    method MakePath(path: string, denied: set<seq<string>>) returns (status: int)
      requires '\0' !in path && [] in nodes && nodes[[]].Directory?
      modifies this
      ensures status == 0 ==> Reached(old(nodes), nodes, denied, path, |path|)
      ensures status != 0 ==> exists k: nat :: Stopped(old(nodes), nodes, denied, path, k)
      ensures forall c | c in old(nodes) :: c in nodes && nodes[c] == old(nodes)[c]
      ensures forall c | c in nodes && c !in old(nodes) :: nodes[c].Directory? && IsParent(path, c)
      ensures status == 0 ==> forall c | IsParent(path, c) :: c in nodes && nodes[c].Directory?
      ensures status != 0 <==> exists c :: IsParent(path, c) && Blocked(old(nodes), denied, c)
    {
      ghost var before := nodes;
      var copypath := StrDup(path);
      status := 0;
      var pp := 0;
      ghost var closed := [];
      AtStart(nodes, denied, path);
      while status == 0
        invariant status == 0 && Mirrors(copypath, path)
        invariant pp <= |path| && (pp == 0 || path[pp - 1] == '/')
        invariant AtComponent(before, nodes, denied, path, pp, closed)
        decreases |path| - pp
      {
        var sp := NextSlash(copypath, path, pp);
        if copypath[sp] == '\0' {
          NoSlashLeft(before, nodes, denied, path, pp, closed);
          ReachedMeans(before, nodes, denied, path, |path|);
          return;
        }
        status, closed := Advance(copypath, path, pp, sp, denied, before, closed);
        if status != 0 {
          StoppedMeans(before, nodes, denied, path, sp);
          return;
        }
        pp := sp + 1;
      }
    }
  }
}
