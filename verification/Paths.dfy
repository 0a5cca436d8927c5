/**
 Path resolution and getcwd of src/fs/fs.c on a given name tree with mounts. Dentries and
 superblocks are numbered; a file system's own lookup of names that are not in the tree is left out,
 so a missing child is an error. Path strings carry no terminating NUL.
 */
module Paths {
  import opened Common

  datatype Dentry = Dentry(name: string, parent: Option<nat>, children: seq<nat>, mountedHere: Option<nat>, inMnt: Option<nat>)
  datatype SuperBlock = SuperBlock(root: Option<nat>, mountpoint: Option<nat>)
  datatype Vfs = Vfs(dentries: map<nat, Dentry>, sbs: map<nat, SuperBlock>, root: nat)

  /** A name a directory entry can have. */
  predicate ProperName(s: string) {
    s != [] && '/' !in s && '\0' !in s && s != "." && s != ".."
  }

  // ---- the name tree ----

  predicate LinksOk(v: Vfs, d: nat)
    requires d in v.dentries
  {
    var x := v.dentries[d];
    && (x.mountedHere.Some? ==> x.mountedHere.value in v.sbs && x.children == [])
    && (x.inMnt.Some? ==> x.inMnt.value in v.sbs)
    && (forall i :: 0 <= i < |x.children| ==> x.children[i] in v.dentries && v.dentries[x.children[i]].parent == Some(d))
    && (forall i, j :: 0 <= i < j < |x.children| ==> v.dentries[x.children[i]].name != v.dentries[x.children[j]].name)
    && (x.parent.Some? ==> ProperName(x.name) && x.parent.value in v.dentries && d in v.dentries[x.parent.value].children)
    && (x.parent.None? && d != v.root ==> MountRoot(v, d))
  }

  /** d is the root of a file system mounted on a dentry that has a parent. */
  predicate MountRoot(v: Vfs, d: nat)
    requires d in v.dentries
  {
    && v.dentries[d].inMnt.Some? && v.dentries[d].inMnt.value in v.sbs
    && var b := v.dentries[d].inMnt.value;
    && v.sbs[b].root == Some(d) && v.sbs[b].mountpoint.Some? && v.sbs[b].mountpoint.value in v.dentries
    && v.dentries[v.sbs[b].mountpoint.value].mountedHere == Some(b)
    && v.dentries[v.sbs[b].mountpoint.value].parent.Some?
  }

  /** What is mounted on a dentry has its root in the tree and names the dentry as its mount point. */
  predicate MountOk(v: Vfs, d: nat)
    requires d in v.dentries
  {
    var m := v.dentries[d].mountedHere;
    m.Some? ==> && m.value in v.sbs && v.sbs[m.value].mountpoint == Some(d) && v.sbs[m.value].root.Some?
                && v.sbs[m.value].root.value in v.dentries && v.sbs[m.value].root.value != v.root
                && v.dentries[v.sbs[m.value].root.value].parent.None?
                && v.dentries[v.sbs[m.value].root.value].inMnt == m
  }

  /** A well-formed tree; rank falls towards the root. */
  ghost predicate TreeOk(v: Vfs, rank: map<nat, nat>) {
    && v.root in v.dentries && v.dentries[v.root].parent.None?
    && rank.Keys == v.dentries.Keys
    && (forall d :: d in v.dentries ==> LinksOk(v, d) && MountOk(v, d))
    && (forall d :: d in v.dentries && d != v.root ==> Above(v, d) in v.dentries && rank[Above(v, d)] < rank[d])
  }

  /** The dentry getcwd collects for d: its mount point if d is a mounted root. */
  function Shown(v: Vfs, d: nat): (s: nat) {
    if d in v.dentries && v.dentries[d].parent.None? && v.dentries[d].inMnt.Some? && v.dentries[d].inMnt.value in v.sbs
       && v.sbs[v.dentries[d].inMnt.value].mountpoint.Some?
    then v.sbs[v.dentries[d].inMnt.value].mountpoint.value else d
  }

  /** The dentry getcwd goes to from d. */
  function Above(v: Vfs, d: nat): (p: nat) {
    if Shown(v, d) in v.dentries && v.dentries[Shown(v, d)].parent.Some? then v.dentries[Shown(v, d)].parent.value else d
  }

  /** The names from the root down to d. */
  ghost function NamesOf(v: Vfs, rank: map<nat, nat>, d: nat): (ns: seq<string>)
    requires TreeOk(v, rank) && d in v.dentries
    decreases rank[d]
  {
    if d == v.root then [] else
      ShownIn(v, rank, d);
      NamesOf(v, rank, Above(v, d)) + [v.dentries[Shown(v, d)].name]
  }

  /** Off the root, the collected dentry has a parent that lists it. */
  lemma ShownIn(v: Vfs, rank: map<nat, nat>, d: nat)
    requires TreeOk(v, rank) && d in v.dentries && d != v.root
    ensures Shown(v, d) in v.dentries && v.dentries[Shown(v, d)].parent == Some(Above(v, d))
    ensures Above(v, d) in v.dentries && Shown(v, d) in v.dentries[Above(v, d)].children
            && ProperName(v.dentries[Shown(v, d)].name)
    ensures v.dentries[d].parent.Some? ==> Shown(v, d) == d
    ensures v.dentries[d].parent.None? ==> MountRoot(v, d)
  {
    assert LinksOk(v, d);
    assert LinksOk(v, Shown(v, d));
  }

  // ---- resolution ----

  /** handle_mount: from a mount point to the root mounted on it. */
  function Hop(v: Vfs, d: nat): (r: nat) {
    if d in v.dentries && v.dentries[d].mountedHere.Some? && v.dentries[d].mountedHere.value in v.sbs
       && v.sbs[v.dentries[d].mountedHere.value].root.Some?
    then v.sbs[v.dentries[d].mountedHere.value].root.value else d
  }

  /** The first of some dentries with a given name. */
  function FindChild(v: Vfs, cs: seq<nat>, t: string): (r: Option<nat>) {
    if cs == [] then None
    else if cs[0] in v.dentries && v.dentries[cs[0]].name == t then Some(cs[0])
    else FindChild(v, cs[1..], t)
  }

  /** Where ".." leads, before mounts are looked at. */
  function DotDot(v: Vfs, d: nat): (r: nat)
    requires d in v.dentries
  {
    var x := v.dentries[d];
    if x.inMnt.Some? && x.inMnt.value in v.sbs && v.sbs[x.inMnt.value].root == Some(d) then
      var m := v.sbs[x.inMnt.value].mountpoint;
      if m.Some? && m.value in v.dentries && v.dentries[m.value].parent.Some? then v.dentries[m.value].parent.value else d
    else if x.parent.Some? then x.parent.value else d
  }

  /** One path component. */
  function Step(v: Vfs, d: nat, t: string): (r: Option<nat>)
    requires d in v.dentries
  {
    if t == "." then Some(Hop(v, d))
    else if t == ".." then Some(Hop(v, DotDot(v, d)))
    else match FindChild(v, v.dentries[d].children, t)
      case None => None
      case Some(c) => Some(Hop(v, c))
  }

  /** A walk along path components. */
  function Walk(v: Vfs, d: nat, ts: seq<string>): (r: Option<nat>)
    decreases |ts|
  {
    if ts == [] then Some(d)
    else if d !in v.dentries then None
    else match Step(v, d, ts[0])
      case None => None
      case Some(n) => Walk(v, n, ts[1..])
  }

  /** __vfs_lookup_locked. */
  function Resolve(v: Vfs, start: Option<nat>, path: string): (r: Option<nat>) {
    if path == "" then None
    else Walk(v, if path[0] == '/' || start.None? then v.root else start.value, Tokens(path))
  }

  // ---- strings ----

  function Span(s: string): (n: nat)
    ensures n <= |s| && '/' !in s[..n] && (n < |s| ==> s[n] == '/')
  {
    if s == [] || s[0] == '/' then 0 else
      assert s[..1 + Span(s[1..])] == [s[0]] + s[1..][..Span(s[1..])];
      1 + Span(s[1..])
  }

  /** The components strtok_r yields. */
  function Tokens(s: string): (ts: seq<string>)
    decreases |s|
  {
    if s == [] then []
    else if s[0] == '/' then Tokens(s[1..])
    else [s[..Span(s)]] + Tokens(s[Span(s)..])
  }

  /** The string getcwd writes for the names from the root down. */
  function Joined(ns: seq<string>): (s: string) {
    if ns == [] then "" else Joined(ns[..|ns| - 1]) + "/" + ns[|ns| - 1]
  }

  function PathString(ns: seq<string>): (s: string) {
    if ns == [] then "/" else Joined(ns)
  }

  lemma {:induction false} SpanIs(a: string, b: string)
    requires '/' !in a && (b != [] ==> b[0] == '/')
    ensures Span(a + b) == |a|
  {
    if a == [] {
      assert a + b == b;
    } else {
      SpanIs(a[1..], b);
      assert (a + b)[1..] == a[1..] + b;
    }
  }

  lemma TokensSlash(t: string, rest: string)
    requires t != [] && '/' !in t && (rest != [] ==> rest[0] == '/')
    ensures Tokens("/" + t + rest) == [t] + Tokens(rest)
  {
    var s := t + rest;
    assert ("/" + t + rest)[1..] == s;
    SpanIs(t, rest);
    assert s[..|t|] == t && s[|t|..] == rest;
  }

  /** The components of a path the printer writes are the names it was given. */
  lemma {:induction false} TokensOfJoined(ns: seq<string>, rest: string)
    requires forall i :: 0 <= i < |ns| ==> ns[i] != [] && '/' !in ns[i]
    requires rest != [] ==> rest[0] == '/'
    ensures Tokens(Joined(ns) + rest) == ns + Tokens(rest)
    decreases |ns|
  {
    hide Tokens;
    if ns == [] {
      assert Joined(ns) + rest == rest;
    } else {
      var n, t := ns[..|ns| - 1], ns[|ns| - 1];
      TokensOfJoined(n, "/" + t + rest);
      assert Joined(ns) + rest == Joined(n) + ("/" + t + rest);
      TokensSlash(t, rest);
      assert ns + Tokens(rest) == n + ([t] + Tokens(rest));
    }
  }

  lemma TokensOfPath(ns: seq<string>)
    requires forall i :: 0 <= i < |ns| ==> ns[i] != [] && '/' !in ns[i]
    ensures Tokens(PathString(ns)) == ns && PathString(ns) != "" && PathString(ns)[0] == '/'
  {
    if ns == [] {
      assert Tokens("/"[1..]) == [];
    } else {
      TokensOfJoined(ns, "");
      assert Joined(ns) + "" == Joined(ns);
      JoinedStarts(ns);
    }
  }

  lemma {:induction false} JoinedStarts(ns: seq<string>)
    requires ns != []
    ensures Joined(ns) != "" && Joined(ns)[0] == '/'
  {
    if |ns| > 1 { JoinedStarts(ns[..|ns| - 1]); }
  }

  // ---- the round trip ----

  lemma {:induction false} WalkConcat(v: Vfs, d: nat, a: seq<string>, t: string)
    ensures Walk(v, d, a + [t]) == match Walk(v, d, a)
                                   case None => None
                                   case Some(n) => if n in v.dentries then Step(v, n, t) else None
    decreases |a|
  {
    if a == [] {
      assert ([] + [t])[1..] == [];
      assert a + [t] == [t];
    } else if d in v.dentries && Step(v, d, a[0]).Some? {
      WalkConcat(v, Step(v, d, a[0]).value, a[1..], t);
      assert (a + [t])[1..] == a[1..] + [t];
    }
  }

  lemma {:induction false} FindChildIs(v: Vfs, cs: seq<nat>, i: nat)
    requires i < |cs| && cs[i] in v.dentries
    requires forall j :: 0 <= j < i ==> cs[j] !in v.dentries || v.dentries[cs[j]].name != v.dentries[cs[i]].name
    ensures FindChild(v, cs, v.dentries[cs[i]].name) == Some(cs[i])
  {
    if i > 0 { FindChildIs(v, cs[1..], i - 1); }
  }

  lemma {:induction false} FindChildFound(v: Vfs, cs: seq<nat>, t: string)
    ensures var r := FindChild(v, cs, t); r.Some? ==> r.value in cs && r.value in v.dentries && v.dentries[r.value].name == t
  {
    if cs != [] { FindChildFound(v, cs[1..], t); }
  }

  /** Walking the names of a dentry ends at it, or at what is mounted on it. */
  lemma {:induction false} WalkNames(v: Vfs, rank: map<nat, nat>, d: nat)
    requires TreeOk(v, rank) && d in v.dentries && (d == v.root || v.dentries[d].mountedHere.None?)
    ensures Walk(v, v.root, NamesOf(v, rank, d)) == Some(d)
    decreases rank[d]
  {
    if d != v.root {
      ShownIn(v, rank, d);
      var p, x := Above(v, d), Shown(v, d);
      assert LinksOk(v, p) && LinksOk(v, d) && MountOk(v, x);
      WalkNames(v, rank, p);
      var t := v.dentries[x].name;
      WalkConcat(v, v.root, NamesOf(v, rank, p), t);
      var i :| 0 <= i < |v.dentries[p].children| && v.dentries[p].children[i] == x;
      FindChildIs(v, v.dentries[p].children, i);
      assert Hop(v, x) == d;
    }
  }

  /** A step down by name is undone by getcwd's step up. */
  lemma StepDown(v: Vfs, rank: map<nat, nat>, p: nat, t: string)
    requires TreeOk(v, rank) && p in v.dentries && t != "." && t != ".." && Step(v, p, t).Some?
    ensures var d := Step(v, p, t).value;
            && d in v.dentries && d != v.root && Above(v, d) == p && Shown(v, d) in v.dentries
            && v.dentries[Shown(v, d)].name == t
  {
    FindChildFound(v, v.dentries[p].children, t);
    var x := FindChild(v, v.dentries[p].children, t).value;
    assert LinksOk(v, p) && LinksOk(v, x) && MountOk(v, x);
    var d := Hop(v, x);
    assert LinksOk(v, d);
  }

  lemma AtRoot(v: Vfs, rank: map<nat, nat>)
    requires TreeOk(v, rank)
    ensures v.root in v.dentries && NamesOf(v, rank, v.root) == [] && Walk(v, v.root, []) == Some(v.root)
  {
  }

  lemma NamesStep(v: Vfs, rank: map<nat, nat>, d: nat)
    requires TreeOk(v, rank) && d in v.dentries && d != v.root
    ensures Above(v, d) in v.dentries && Shown(v, d) in v.dentries
    ensures NamesOf(v, rank, d) == NamesOf(v, rank, Above(v, d)) + [v.dentries[Shown(v, d)].name]
  {
    ShownIn(v, rank, d);
  }

  /** A dentry reached without "." and ".." is shown as the components that led to it. */
  lemma {:induction false} NamesOfWalk(v: Vfs, rank: map<nat, nat>, ts: seq<string>)
    requires TreeOk(v, rank) && (forall i :: 0 <= i < |ts| ==> ts[i] != "." && ts[i] != "..")
    requires Walk(v, v.root, ts).Some?
    ensures Walk(v, v.root, ts).value in v.dentries && NamesOf(v, rank, Walk(v, v.root, ts).value) == ts
    decreases |ts|
  {
    hide Step, Shown, Above, Walk, NamesOf, TreeOk;
    AtRoot(v, rank);
    if ts != [] {
      var a, t := ts[..|ts| - 1], ts[|ts| - 1];
      assert a + [t] == ts;
      WalkConcat(v, v.root, a, t);
      NamesOfWalk(v, rank, a);
      var p := Walk(v, v.root, a).value;
      StepDown(v, rank, p, t);
      NamesStep(v, rank, Step(v, p, t).value);
    }
  }

  /** Resolving what getcwd prints for a dentry that nothing is mounted on gives the dentry back. */
  lemma ResolveUndoesPrint(v: Vfs, rank: map<nat, nat>, d: nat, start: Option<nat>)
    requires TreeOk(v, rank) && d in v.dentries && (d == v.root || v.dentries[d].mountedHere.None?)
    ensures Resolve(v, start, PathString(NamesOf(v, rank, d))) == Some(d)
  {
    NamesProper(v, rank, d);
    TokensOfPath(NamesOf(v, rank, d));
    WalkNames(v, rank, d);
  }

  lemma {:induction false} NamesProper(v: Vfs, rank: map<nat, nat>, d: nat)
    requires TreeOk(v, rank) && d in v.dentries
    ensures forall i :: 0 <= i < |NamesOf(v, rank, d)| ==> ProperName(NamesOf(v, rank, d)[i])
    decreases rank[d]
  {
    if d != v.root {
      ShownIn(v, rank, d);
      NamesProper(v, rank, Above(v, d));
    }
  }

  /** Printing what a printed-form path resolves to gives the path back. */
  lemma PrintUndoesResolve(v: Vfs, rank: map<nat, nat>, ns: seq<string>, start: Option<nat>)
    requires TreeOk(v, rank) && forall i :: 0 <= i < |ns| ==> ProperName(ns[i])
    requires Resolve(v, start, PathString(ns)).Some?
    ensures var d := Resolve(v, start, PathString(ns)).value; d in v.dentries && PathString(NamesOf(v, rank, d)) == PathString(ns)
  {
    TokensOfPath(ns);
    NamesOfWalk(v, rank, ns);
  }

  // ---- "..", "." and relative paths ----

  /** A file system's root has no parent, and the dentry it is mounted on knows of it. */
  predicate SbOk(v: Vfs, b: nat)
    requires b in v.sbs
  {
    && (v.sbs[b].root.Some? && v.sbs[b].root.value in v.dentries ==> v.dentries[v.sbs[b].root.value].parent.None?)
    && (v.sbs[b].mountpoint.Some? ==>
          v.sbs[b].mountpoint.value in v.dentries && v.dentries[v.sbs[b].mountpoint.value].mountedHere == Some(b))
  }

  /** What mounting and unmounting keep of the file systems. */
  ghost predicate MountsOk(v: Vfs) {
    forall b :: b in v.sbs ==> SbOk(v, b)
  }

  /** What something is mounted on has a parent: it is neither the root nor the root of a mounted file system. */
  lemma MountedInside(v: Vfs, rank: map<nat, nat>, d: nat)
    requires TreeOk(v, rank) && d in v.dentries
    ensures v.dentries[d].mountedHere.Some? ==> v.dentries[d].parent.Some?
  {
    if v.dentries[d].mountedHere.Some? {
      assert MountOk(v, d);
      assert LinksOk(v, v.sbs[v.dentries[d].mountedHere.value].root.value);
    }
  }

  /** ".." goes one level up, out of a mounted file system too. */
  lemma StepUp(v: Vfs, rank: map<nat, nat>, d: nat)
    requires TreeOk(v, rank) && MountsOk(v) && d in v.dentries && d != v.root
    ensures Step(v, d, "..") == Some(Above(v, d))
  {
    ShownIn(v, rank, d);
    assert LinksOk(v, d) && LinksOk(v, Above(v, d));
    if v.dentries[d].inMnt.Some? { assert SbOk(v, v.dentries[d].inMnt.value); }
  }

  /** At the root ".." stays. */
  lemma StepAtRoot(v: Vfs, rank: map<nat, nat>)
    requires TreeOk(v, rank) && MountsOk(v)
    ensures Step(v, v.root, "..") == Some(v.root)
  {
    MountedInside(v, rank, v.root);
    assert LinksOk(v, v.root);
    var m := v.dentries[v.root].inMnt;
    if m.Some? && v.sbs[m.value].mountpoint.Some? {
      assert SbOk(v, m.value) && MountOk(v, v.sbs[m.value].mountpoint.value);
    }
  }

  /** What is mounted on a dentry is shown by the same names, and nothing is mounted on it in turn. */
  lemma HopNames(v: Vfs, rank: map<nat, nat>, d: nat)
    requires TreeOk(v, rank) && d in v.dentries
    ensures var r := Hop(v, d);
            r in v.dentries && v.dentries[r].mountedHere.None? && NamesOf(v, rank, r) == NamesOf(v, rank, d)
    ensures v.dentries[d].mountedHere.None? ==> Hop(v, d) == d
  {
    if v.dentries[d].mountedHere.Some? {
      assert MountOk(v, d) && LinksOk(v, d);
      var r := Hop(v, d);
      MountedInside(v, rank, r);
      MountedInside(v, rank, d);
      ShownIn(v, rank, r);
      ShownIn(v, rank, d);
      NamesStep(v, rank, r);
      NamesStep(v, rank, d);
    }
  }

  lemma {:induction false} WalkThen(v: Vfs, d: nat, a: seq<string>, b: seq<string>)
    ensures Walk(v, d, a + b) == match Walk(v, d, a)
                                 case None => None
                                 case Some(n) => Walk(v, n, b)
    decreases |a|
  {
    if a == [] {
      assert a + b == b;
    } else if d in v.dentries && Step(v, d, a[0]).Some? {
      assert (a + b)[1..] == a[1..] + b;
      WalkThen(v, Step(v, d, a[0]).value, a[1..], b);
    }
  }

  lemma TokensAfter(ns: seq<string>, p: string)
    requires forall i :: 0 <= i < |ns| ==> ns[i] != [] && '/' !in ns[i]
    ensures Tokens(PathString(ns) + "/" + p) == ns + Tokens(p)
    ensures PathString(ns) + "/" + p != "" && (PathString(ns) + "/" + p)[0] == '/'
  {
    var q := "/" + p;
    assert q[1..] == p;
    if ns == [] {
      assert ("/" + "/" + p)[1..] == q;
    } else {
      TokensOfJoined(ns, q);
      assert Joined(ns) + "/" + p == Joined(ns) + q;
      JoinedStarts(ns);
    }
  }

  /**
   A relative path leads from a dentry to where the dentry's own path with the relative one behind it leads; a
   dentry that something is mounted on stands for the root mounted there.
   */
  lemma RelativeStart(v: Vfs, rank: map<nat, nat>, d: nat, p: string, start: Option<nat>)
    requires TreeOk(v, rank) && d in v.dentries && p != "" && p[0] != '/'
    ensures Resolve(v, Some(Hop(v, d)), p) == Resolve(v, start, PathString(NamesOf(v, rank, d)) + "/" + p)
    ensures Resolve(v, None, p) == Resolve(v, start, "/" + p)
  {
    hide TreeOk, Tokens, Walk, Hop;
    var r := Hop(v, d);
    HopNames(v, rank, d);
    NamesProper(v, rank, d);
    TokensAfter(NamesOf(v, rank, d), p);
    WalkNames(v, rank, r);
    WalkThen(v, v.root, NamesOf(v, rank, d), Tokens(p));
    SlashSkipped(p);
  }

  lemma SlashSkipped(p: string)
    ensures Tokens("/" + p) == Tokens(p) && ("/" + p)[0] == '/'
  {
    assert ("/" + p)[1..] == p;
  }

  /** A path that starts with a slash leads to the same place from everywhere. */
  lemma AbsoluteAnywhere(v: Vfs, p: string, a: Option<nat>, b: Option<nat>)
    requires p != "" && p[0] == '/'
    ensures Resolve(v, a, p) == Resolve(v, b, p)
  {
  }

  /** "/.." behind the path of a dentry leads to the dentry with one name less. */
  lemma DotDotDropsName(v: Vfs, rank: map<nat, nat>, d: nat, start: Option<nat>)
    requires TreeOk(v, rank) && MountsOk(v) && d in v.dentries && d != v.root
    ensures |NamesOf(v, rank, d)| > 0
    ensures var r, ns := Resolve(v, start, PathString(NamesOf(v, rank, d)) + "/.."), NamesOf(v, rank, d);
            r.Some? && r.value in v.dentries && NamesOf(v, rank, r.value) == ns[..|ns| - 1]
  {
    hide TreeOk, Tokens, Walk, Hop, MountsOk, Step, NamesOf, Above, Shown;
    var e := Hop(v, d);
    HopNames(v, rank, d);
    NamesStep(v, rank, d);
    AtRoot(v, rank);
    NamesStep(v, rank, e);
    StepUp(v, rank, e);
    OneToken("..");
    SlashDots(PathString(NamesOf(v, rank, d)));
    RelativeStart(v, rank, d, "..", start);
    OneStep(v, e, "..");
  }

  /** At the root "/.." stays, and "/." stays everywhere, up to what is mounted there. */
  lemma DotsStay(v: Vfs, rank: map<nat, nat>, d: nat, start: Option<nat>)
    requires TreeOk(v, rank) && MountsOk(v) && d in v.dentries
    ensures Resolve(v, start, "/..") == Some(v.root)
    ensures Resolve(v, start, PathString(NamesOf(v, rank, d)) + "/.") == Some(Hop(v, d))
    ensures v.dentries[d].mountedHere.None? ==> Hop(v, d) == d
  {
    hide TreeOk, Tokens, Walk, MountsOk, Step, NamesOf;
    var e := Hop(v, d);
    HopNames(v, rank, d);
    HopNames(v, rank, e);
    OneToken("..");
    OneToken(".");
    SlashSkipped("..");
    assert "/" + ".." == "/..";
    AtRoot(v, rank);
    StepAtRoot(v, rank);
    OneStep(v, v.root, "..");
    SlashDots(PathString(NamesOf(v, rank, d)));
    RelativeStart(v, rank, d, ".", start);
    OneStep(v, e, ".");
    StepHere(v, e);
  }

  lemma SlashDots(s: string)
    ensures s + "/" + ".." == s + "/.." && s + "/" + "." == s + "/."
  {
    assert "/" + ".." == "/.." && "/" + "." == "/.";
  }

  lemma StepHere(v: Vfs, d: nat)
    requires d in v.dentries
    ensures Step(v, d, ".") == Some(Hop(v, d))
  {
  }

  lemma OneToken(t: string)
    requires t != [] && '/' !in t
    ensures Tokens(t) == [t]
  {
    SpanIs(t, []);
    assert t + [] == t && t[..|t|] == t && t[|t|..] == [] && t[0] in t;
  }

  lemma OneStep(v: Vfs, d: nat, t: string)
    requires d in v.dentries
    ensures Walk(v, d, [t]) == Step(v, d, t)
  {
    hide Step;
    assert [t][1..] == [];
  }

  // ---- the code ----

  /** strtok_r: the next component and what follows it. */
  method NextToken(rest: string) returns (tok: Option<string>, rest': string)
    ensures tok.None? ==> Tokens(rest) == []
    ensures tok.Some? ==> Tokens(rest) == [tok.value] + Tokens(rest') && |rest'| < |rest|
  {
    var i := 0;
    while i < |rest| && rest[i] == '/'
      invariant i <= |rest| && Tokens(rest[i..]) == Tokens(rest)
    {
      assert rest[i..][1..] == rest[i + 1..];
      i := i + 1;
    }
    var s := rest[i..];
    if s == [] { return None, s; }
    var n := 0;
    while n < |s| && s[n] != '/'
      invariant n <= |s| && '/' !in s[..n]
    {
      n := n + 1;
    }
    assert s == s[..n] + s[n..];
    SpanIs(s[..n], s[n..]);
    tok, rest' := Some(s[..n]), s[n..];
  }

  method FindIn(v: Vfs, cs: seq<nat>, t: string) returns (r: Option<nat>)
    requires forall i :: 0 <= i < |cs| ==> cs[i] in v.dentries
    ensures r == FindChild(v, cs, t)
  {
    for i := 0 to |cs|
      invariant FindChild(v, cs[i..], t) == FindChild(v, cs, t)
    {
      assert cs[i..][1..] == cs[i + 1..];
      if v.dentries[cs[i]].name == t { return Some(cs[i]); }
    }
    r := None;
  }

  /** __vfs_lookup_locked. */
  method Lookup(v: Vfs, ghost rank: map<nat, nat>, start: Option<nat>, path: string) returns (r: Option<nat>)
    requires TreeOk(v, rank) && (start.Some? ==> start.value in v.dentries)
    ensures r == Resolve(v, start, path)
    ensures r.Some? ==> r.value in v.dentries
  {
    hide TreeOk, Tokens;
    AtRoot(v, rank);
    if path == "" { return None; }
    var current := if path[0] == '/' then v.root else if start.Some? then start.value else v.root;
    var tok, rest := NextToken(path);
    while tok.Some?
      invariant current in v.dentries
      invariant Walk(v, current, if tok.Some? then [tok.value] + Tokens(rest) else []) == Resolve(v, start, path)
      decreases tok.Some?, |rest|
    {
      var t := tok.value;
      var next: nat;
      StaysIn(v, rank, current, t);
      assert ([t] + Tokens(rest))[1..] == Tokens(rest);
      if t == "." {
        next := current;
      } else if t == ".." {
        next := DotDot(v, current);
      } else {
        ChildrenIn(v, rank, current);
        var c := FindIn(v, v.dentries[current].children, t);
        if c.None? { return None; }
        next := c.value;
      }
      current := Hop(v, next);
      tok, rest := NextToken(rest);
    }
    r := Some(current);
  }

  lemma ChildrenIn(v: Vfs, rank: map<nat, nat>, d: nat)
    requires TreeOk(v, rank) && d in v.dentries
    ensures forall i :: 0 <= i < |v.dentries[d].children| ==> v.dentries[d].children[i] in v.dentries
  {
    assert LinksOk(v, d);
  }

  /** A step stays inside the tree. */
  lemma StaysIn(v: Vfs, rank: map<nat, nat>, d: nat, t: string)
    requires TreeOk(v, rank) && d in v.dentries
    ensures Step(v, d, t).Some? ==> Step(v, d, t).value in v.dentries
  {
    hide LinksOk, DotDot;
    DotDotIn(v, rank, d);
    FindChildFound(v, v.dentries[d].children, t);
    HopIn(v, rank, d);
    var c := FindChild(v, v.dentries[d].children, t);
    if c.Some? { HopIn(v, rank, c.value); }
  }

  lemma HopIn(v: Vfs, rank: map<nat, nat>, d: nat)
    requires TreeOk(v, rank) && d in v.dentries
    ensures Hop(v, d) in v.dentries
  {
    assert MountOk(v, d);
  }

  lemma DotDotIn(v: Vfs, rank: map<nat, nat>, d: nat)
    requires TreeOk(v, rank) && d in v.dentries
    ensures DotDot(v, d) in v.dentries && Hop(v, DotDot(v, d)) in v.dentries
  {
    assert LinksOk(v, d);
    var m := v.dentries[d].inMnt;
    assert m.Some? && v.sbs[m.value].mountpoint.Some? && v.sbs[m.value].mountpoint.value in v.dentries ==>
             LinksOk(v, v.sbs[m.value].mountpoint.value);
    assert MountOk(v, DotDot(v, d));
  }

  /** The dentries from the working directory up to the root, without the root. */
  method Collect(v: Vfs, ghost rank: map<nat, nat>, cwd: nat) returns (names: seq<nat>)
    requires TreeOk(v, rank) && cwd in v.dentries
    ensures |names| == |NamesOf(v, rank, cwd)|
    ensures forall i :: 0 <= i < |names| ==> names[i] in v.dentries && v.dentries[names[i]].name == NamesOf(v, rank, cwd)[|names| - 1 - i]
  {
    hide TreeOk, NamesOf, Above, Shown, ProperName;
    names := [];
    var cur := cwd;
    ghost var all := NamesOf(v, rank, cwd);
    AtRoot(v, rank);
    while cur != v.root
      invariant cur in v.dentries && |NamesOf(v, rank, cur)| + |names| == |all| && NamesOf(v, rank, cur) <= all
      invariant forall i :: 0 <= i < |names| ==> names[i] in v.dentries && v.dentries[names[i]].name == all[|all| - 1 - i]
      decreases |NamesOf(v, rank, cur)|
    {
      NamesStep(v, rank, cur);
      UpStep(v, rank, cur);
      if v.dentries[cur].parent.None? {
        var mntpt := v.sbs[v.dentries[cur].inMnt.value].mountpoint.value;
        names := names + [mntpt];
        cur := v.dentries[mntpt].parent.value;
      } else {
        names := names + [cur];
        cur := v.dentries[cur].parent.value;
      }
    }
  }

  /** names are the dentries of the components ns, deepest first. */
  ghost predicate Collected(v: Vfs, names: seq<nat>, ns: seq<string>) {
    && |names| == |ns| && (forall i :: 0 <= i < |ns| ==> ProperName(ns[i]))
    && forall i :: 0 <= i < |names| ==> names[i] in v.dentries && v.dentries[names[i]].name == ns[|names| - 1 - i]
  }

  lemma UpStep(v: Vfs, rank: map<nat, nat>, d: nat)
    requires TreeOk(v, rank) && d in v.dentries && d != v.root
    ensures v.dentries[d].parent.Some? ==> Shown(v, d) == d && Above(v, d) == v.dentries[d].parent.value
    ensures v.dentries[d].parent.None? ==>
              && v.dentries[d].inMnt.Some? && v.dentries[d].inMnt.value in v.sbs
              && v.sbs[v.dentries[d].inMnt.value].mountpoint == Some(Shown(v, d))
              && Shown(v, d) in v.dentries && v.dentries[Shown(v, d)].parent == Some(Above(v, d))
  {
    ShownIn(v, rank, d);
  }

  /** The length of the path, computed from the names before anything is written. */
  method TotalLength(v: Vfs, names: seq<nat>, ghost ns: seq<string>) returns (total: nat)
    requires Collected(v, names, ns)
    ensures total == |PathString(ns)|
  {
    hide ProperName, Joined;
    var depth := |names|;
    total := 0;
    var i := depth - 1;
    ghost var k := 0;
    while i >= 0
      invariant i == depth - 1 - k && 0 <= k <= depth
      invariant if k == 0 then total == 0 else total + 1 == |Joined(ns[..k])|
    {
      var name := v.dentries[names[i]].name;
      assert name == ns[k] && ProperName(ns[k]);
      NotSlash(name);
      JoinedStep(ns, k);
      if i == depth - 1 && |name| == 1 && name[0] == '/' {
        total := total + 1;
      } else {
        if i != depth - 1 { total := total + 1; }
        total := total + |name|;
      }
      i, k := i - 1, k + 1;
    }
    assert ns[..depth] == ns;
    total := total + 1;
  }

  lemma NotSlash(s: string)
    requires ProperName(s)
    ensures !(|s| == 1 && s[0] == '/') && s != [] && '/' !in s
  {
    assert |s| > 0 ==> s[0] in s;
  }

  lemma JoinedStep(ns: seq<string>, k: nat)
    requires k < |ns|
    ensures Joined(ns[..k + 1]) == Joined(ns[..k]) + "/" + ns[k]
    ensures Joined(ns[..0]) == ""
  {
    assert ns[..k + 1][..k] == ns[..k];
  }

  /** sys_getcwd: false when the buffer is too small for the path and its terminator. */
  method GetCwd(v: Vfs, ghost rank: map<nat, nat>, cwd: nat, buf: array<char>) returns (ok: bool, total: nat)
    requires TreeOk(v, rank) && cwd in v.dentries && |NamesOf(v, rank, cwd)| <= 256
    modifies buf
    ensures total == |PathString(NamesOf(v, rank, cwd))|
    ensures ok <==> total + 1 <= buf.Length
    ensures ok ==> buf[..total] == PathString(NamesOf(v, rank, cwd)) && buf[total] == '\0'
    ensures ok ==> buf[total + 1..] == old(buf[total + 1..])
    ensures !ok ==> buf[..] == old(buf[..])
  {
    hide TreeOk, NamesOf, ProperName, Joined, PathString;
    ghost var ns := NamesOf(v, rank, cwd);
    NamesProper(v, rank, cwd);
    var names := Collect(v, rank, cwd);
    total := TotalLength(v, names, ns);
    if total + 1 > buf.Length { return false, total; }
    PrintPath(v, names, ns, buf, total);
    ok := true;
  }

  /** The writing part of sys_getcwd. */
  method PrintPath(v: Vfs, names: seq<nat>, ghost ns: seq<string>, buf: array<char>, ghost total: nat)
    requires Collected(v, names, ns) && total == |PathString(ns)| && total + 1 <= buf.Length
    modifies buf
    ensures buf[..total] == PathString(ns) && buf[total] == '\0' && buf[total + 1..] == old(buf[total + 1..])
  {
    hide ProperName, Joined;
    var depth := |names|;
    if ns != [] { JoinedStarts(ns); }
    buf[0] := '/';
    var pos, i := 1, depth - 1;
    ghost var k := 0;
    assert ns[..depth] == ns;
    while i >= 0
      invariant i == depth - 1 - k && 0 <= k <= depth
      invariant pos == (if k == 0 then 1 else |Joined(ns[..k])|) && 1 <= pos <= total
      invariant buf[..pos] == if k == 0 then "/" else Joined(ns[..k])
      invariant k > 0 ==> buf[pos - 1] != '/'
      invariant buf[total + 1..] == old(buf[total + 1..])
    {
      var name := v.dentries[names[i]].name;
      assert name == ns[k] && ProperName(ns[k]);
      NotSlash(name);
      JoinedStep(ns, k);
      PrefixFits(ns, k + 1);
      if pos > 0 && buf[pos - 1] != '/' {
        buf[pos] := '/';
        pos := pos + 1;
      }
      assert buf[..pos] == Joined(ns[..k]) + "/";
      CopyString(buf, pos, name, total);
      pos := pos + |name|;
      i, k := i - 1, k + 1;
    }
    buf[pos] := '\0';
  }

  lemma {:induction false} PrefixFits(ns: seq<string>, k: nat)
    requires k <= |ns| && ns != []
    ensures |Joined(ns[..k])| <= |PathString(ns)|
    decreases |ns| - k
  {
    if k == |ns| {
      assert ns[..k] == ns;
    } else {
      JoinedStep(ns, k);
      PrefixFits(ns, k + 1);
    }
  }

  /** strcpy of a name and its terminator to position pos. */
  method CopyString(buf: array<char>, pos: nat, name: string, ghost total: nat)
    requires pos + |name| <= total < buf.Length && name != [] && '/' !in name
    modifies buf
    ensures buf[..pos + |name|] == old(buf[..pos]) + name && buf[pos + |name| - 1] != '/'
    ensures buf[total + 1..] == old(buf[total + 1..])
  {
    for j := 0 to |name|
      invariant buf[..pos] == old(buf[..pos]) && buf[pos..pos + j] == name[..j]
                && buf[total + 1..] == old(buf[total + 1..])
    {
      buf[pos + j] := name[j];
    }
    buf[pos + |name|] := '\0';
    assert buf[..pos + |name|] == buf[..pos] + buf[pos..pos + |name|];
    assert name[..|name|] == name && name[|name| - 1] in name;
  }
}
