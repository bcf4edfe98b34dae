/** The version graph: every version with its set of parents.  Parents may be names
    the graph does not hold; walks ignore them, as pruning does. */
module VersionGraph {

  /** A version is known only by its name. */
  datatype Version = Version(name: string)

  type Graph = map<Version, set<Version>>

  datatype Result<+T> = Ok(value: T) | Err(missing: Version)

  /** A walk along parent edges through existing versions, the descendant first. */
  ghost predicate Walk(t: Graph, p: seq<Version>) {
    p != [] && p[0] in t && (|p| > 1 ==> p[1] in t[p[0]] && Walk(t, p[1..]))
  }

  /** Version `a` is `d` or one of its ancestors.  Both must exist. */
  ghost predicate IsAncestor(t: Graph, a: Version, d: Version) {
    exists p :: Walk(t, p) && p[0] == d && p[|p| - 1] == a
  }

  ghost function Ancestors(t: Graph, vs: set<Version>): set<Version> {
    set a | a in t && exists d :: d in vs && IsAncestor(t, a, d)
  }

  ghost predicate ParentClosed(t: Graph, s: set<Version>) {
    forall x :: x in s && x in t ==> t[x] * t.Keys <= s
  }

  /** The children of a version, whether or not the version itself exists. */
  ghost function Kids(t: Graph, x: Version): set<Version> {
    set c | c in t && x in t[c]
  }

  /** An existing version that nobody names as a parent. */
  ghost predicate IsLeaf(t: Graph, x: Version) {
    x in t && forall c :: c in t ==> x !in t[c]
  }

  lemma LeafHasNoKids(t: Graph, x: Version)
    ensures IsLeaf(t, x) <==> x in t && Kids(t, x) == {}
  {
    if x in t && Kids(t, x) == {} {
      forall c | c in t ensures x !in t[c] { assert c !in Kids(t, x); }
    }
  }

  /** The same versions with every edge turned round. */
  ghost function Reverse(t: Graph): Graph {
    map x | x in t :: Kids(t, x)
  }

  // ---------- walks ----------

  lemma AncestorOfItself(t: Graph, v: Version)
    requires v in t
    ensures IsAncestor(t, v, v)
  {
    assert Walk(t, [v]);
  }

  lemma {:induction false} WalkEnds(t: Graph, p: seq<Version>)
    requires Walk(t, p)
    ensures p[|p| - 1] in t
  {
    if |p| > 1 { WalkEnds(t, p[1..]); }
  }

  lemma BothExist(t: Graph, a: Version, d: Version)
    requires IsAncestor(t, a, d)
    ensures a in t && d in t
  {
    var p :| Walk(t, p) && p[0] == d && p[|p| - 1] == a;
    WalkEnds(t, p);
  }

  lemma {:induction false} WalkConcat(t: Graph, p: seq<Version>, q: seq<Version>)
    requires Walk(t, p) && Walk(t, q) && p[|p| - 1] in t && q[0] in t[p[|p| - 1]]
    ensures Walk(t, p + q)
  {
    if |p| == 1 {
      assert (p + q)[1..] == q;
    } else {
      WalkConcat(t, p[1..], q);
      assert (p + q)[1..] == p[1..] + q;
    }
  }

  lemma AncestorStep(t: Graph, a: Version, m: Version, d: Version)
    requires IsAncestor(t, m, d) && m in t && a in t[m] && a in t
    ensures IsAncestor(t, a, d)
  {
    var p :| Walk(t, p) && p[0] == d && p[|p| - 1] == m;
    WalkConcat(t, p, [a]);
    var q := p + [a];
    assert q[0] == d && q[|q| - 1] == a;
  }

  lemma AncestorTransitive(t: Graph, a: Version, m: Version, d: Version)
    requires IsAncestor(t, a, m) && IsAncestor(t, m, d)
    ensures IsAncestor(t, a, d)
  {
    var p :| Walk(t, p) && p[0] == d && p[|p| - 1] == m;
    var q :| Walk(t, q) && q[0] == m && q[|q| - 1] == a;
    if |q| > 1 {
      WalkEnds(t, p);
      WalkConcat(t, p, q[1..]);
      var r := p + q[1..];
      assert r[0] == d && r[|r| - 1] == a;
    }
  }

  lemma {:induction false} WalkStaysIn(t: Graph, s: set<Version>, p: seq<Version>)
    requires Walk(t, p) && p[0] in s && ParentClosed(t, s)
    ensures p[|p| - 1] in s
  {
    if |p| > 1 {
      assert p[1..][0] in t;
      WalkStaysIn(t, s, p[1..]);
    }
  }

  /** Ancestors form the least parent-closed set around the versions that exist. */
  lemma AncestorsAreLeast(t: Graph, vs: set<Version>, s: set<Version>)
    requires vs * t.Keys <= s && ParentClosed(t, s)
    ensures Ancestors(t, vs) <= s
  {
    forall a | a in Ancestors(t, vs) ensures a in s {
      var d :| d in vs && IsAncestor(t, a, d);
      var p :| Walk(t, p) && p[0] == d && p[|p| - 1] == a;
      WalkStaysIn(t, s, p);
    }
  }

  lemma AncestorsAreClosed(t: Graph, vs: set<Version>)
    ensures ParentClosed(t, Ancestors(t, vs))
    ensures vs * t.Keys <= Ancestors(t, vs)
  {
    forall x, p | x in Ancestors(t, vs) && p in t[x] * t.Keys ensures p in Ancestors(t, vs) {
      var d :| d in vs && IsAncestor(t, x, d);
      AncestorStep(t, p, x, d);
    }
    forall v | v in vs * t.Keys ensures v in Ancestors(t, vs) { AncestorOfItself(t, v); }
  }

  lemma AncestorsOfUnion(t: Graph, vs: set<Version>, ws: set<Version>)
    ensures Ancestors(t, vs + ws) == Ancestors(t, vs) + Ancestors(t, ws)
  {
  }

  /** A leaf is nobody else's ancestor. */
  lemma LeafIsNoAncestor(t: Graph, a: Version, d: Version)
    requires IsAncestor(t, a, d) && IsLeaf(t, a)
    ensures a == d
  {
    var s := t.Keys - {a};
    if a != d {
      var p :| Walk(t, p) && p[0] == d && p[|p| - 1] == a;
      WalkStaysIn(t, s, p);
    }
  }

  lemma ReverseStepwise(t: Graph, a: Version, d: Version)
    requires IsAncestor(t, a, d)
    ensures IsAncestor(Reverse(t), d, a)
  {
    var s := set x | x in t && IsAncestor(Reverse(t), d, x);
    var p :| Walk(t, p) && p[0] == d && p[|p| - 1] == a;
    AncestorOfItself(Reverse(t), d);
    forall x, y | x in s && y in t[x] * t.Keys ensures y in s {
      AncestorOfItself(Reverse(t), y);
      AncestorStep(Reverse(t), x, y, y);
      AncestorTransitive(Reverse(t), d, x, y);
    }
    WalkStaysIn(t, s, p);
  }

  /** Turning every edge round exchanges ancestors and descendants. */
  lemma ReverseDuality(t: Graph, a: Version, d: Version)
    requires a in t && d in t
    ensures IsAncestor(Reverse(t), d, a) <==> IsAncestor(t, a, d)
  {
    if IsAncestor(t, a, d) { ReverseStepwise(t, a, d); }
    if IsAncestor(Reverse(t), d, a) {
      var r := Reverse(t);
      var s := set x | x in t && IsAncestor(t, x, d);
      ReverseStepwise(r, d, a);
      forall x | x in t ensures Reverse(r)[x] == t[x] * t.Keys {}
      var p :| Walk(Reverse(r), p) && p[0] == d && p[|p| - 1] == a;
      AncestorOfItself(t, d);
      forall x, y | x in s && y in Reverse(r)[x] * t.Keys ensures y in s { AncestorStep(t, y, x, d); }
      WalkStaysIn(Reverse(r), s, p);
    }
  }

  // ---------- the child map and the two searches ----------

  ghost predicate IsChildMap(t: Graph, children: Graph) {
    && (forall x :: x in children ==> children[x] == Kids(t, x))
    && (forall x :: x !in children ==> Kids(t, x) == {})
  }

  /** Builds version -> children by walking over all entries in any order. */
  method GetChildMap(t: Graph) returns (children: Graph)
    ensures IsChildMap(t, children)
  {
    children := map[];
    var todo := t.Keys;
    while todo != {}
      invariant todo <= t.Keys
      invariant forall x :: x in children ==> children[x] == Kids(t, x) - todo
      invariant forall x :: x !in children ==> Kids(t, x) <= todo
    {
      var v :| v in todo;
      ghost var before := children;
      var parents := t[v];
      while parents != {}
        invariant parents <= t[v]
        invariant forall x :: x in children ==>
                    children[x] == (if x in t[v] - parents then Kids(t, x) - (todo - {v}) else Kids(t, x) - todo)
        invariant forall x :: x !in children ==>
                    x !in t[v] - parents && Kids(t, x) <= todo
      {
        var p :| p in parents;
        assert v in Kids(t, p);
        children := children[p := (if p in children then children[p] else {}) + {v}];
        parents := parents - {p};
      }
      todo := todo - {v};
    }
  }

  /** A search from `vs` along `g` runs into a name that does not exist. */
  ghost predicate ReachesMissing(g: Graph, vs: set<Version>, missing: Version) {
    missing !in g && (missing in vs || exists x :: x in Ancestors(g, vs) && missing in g[x])
  }

  lemma ReachesFurther(g: Graph, d: Version, x: Version, missing: Version)
    requires d in g && x in g[d]
    ensures Ancestors(g, {x}) <= Ancestors(g, {d})
    ensures ReachesMissing(g, {x}, missing) ==> ReachesMissing(g, {d}, missing)
  {
    AncestorOfItself(g, d);
    forall a | a in Ancestors(g, {x}) ensures a in Ancestors(g, {d}) {
      assert IsAncestor(g, a, x);
      if x in g {
        AncestorStep(g, x, d, d);
        AncestorTransitive(g, a, x, d);
      }
    }
    assert d in Ancestors(g, {d});
  }

  /** The targets of `done`, and the `starts`, were all visited; unless missing names are
      ignored they all exist. */
  ghost predicate Settled(g: Graph, done: set<Version>, starts: set<Version>, result: set<Version>,
                          ignoreNonexistent: bool) {
    && done <= g.Keys && starts * g.Keys <= result
    && (forall x :: x in done ==> g[x] * g.Keys <= result)
    && (!ignoreNonexistent ==> starts <= g.Keys && forall x :: x in done ==> g[x] <= g.Keys)
  }

  lemma SettledMore(g: Graph, done: set<Version>, starts: set<Version>, before: set<Version>, p: Version,
                    result: set<Version>, ignoreNonexistent: bool)
    requires Settled(g, done, starts, before, ignoreNonexistent) && before <= result
    requires Settled(g, result - before, {p}, result, ignoreNonexistent)
    ensures Settled(g, done + (result - before), starts + {p}, result, ignoreNonexistent)
  {
  }

  lemma SettledRoot(g: Graph, visited: set<Version>, v: Version, done: set<Version>, result: set<Version>,
                    ignoreNonexistent: bool)
    requires v in g && result == visited + {v} + done && Settled(g, done, g[v], result, ignoreNonexistent)
    ensures Settled(g, result - visited, {v}, result, ignoreNonexistent)
  {
  }

  /** The recursion shared by both searches: `edges` is the parent map or the child map.
      The graph `g` is the one it walks: all versions, with those edges. */
  method Recurse(t: Graph, edges: Graph, v: Version, visited: set<Version>, ignoreNonexistent: bool, ghost g: Graph)
    returns (r: Result<()>, result: set<Version>)
    requires g.Keys == t.Keys && visited <= t.Keys
    requires forall x :: x in t ==> g[x] == if x in edges then edges[x] else {}
    ensures visited <= result <= visited + Ancestors(g, {v})
    ensures r.Ok? ==> Settled(g, result - visited, {v}, result, ignoreNonexistent)
    ensures r.Err? ==> !ignoreNonexistent && ReachesMissing(g, {v}, r.missing)
    decreases t.Keys - visited
  {
    result := visited;
    if v in result { return Ok(()), result; }
    if v !in t {
      if ignoreNonexistent { return Ok(()), result; }
      return Err(v), result;
    }
    result := result + {v};
    ghost var done, tried := {}, {};
    if v in edges {
      var todo := edges[v];
      while todo != {}
        invariant tried + todo == g[v] && visited + {v} + done == result
        invariant done <= Ancestors(g, {v})
        invariant Settled(g, done, tried, result, ignoreNonexistent)
        decreases todo
      {
        var p :| p in todo;
        todo := todo - {p};
        var rp;
        ghost var before := result;
        rp, result := Recurse(t, edges, p, result, ignoreNonexistent, g);
        ReachesFurther(g, v, p, if rp.Err? then rp.missing else v);
        if rp.Err? {
          AncestorOfItself(g, v);
          return rp, result;
        }
        SettledMore(g, done, tried, before, p, result, ignoreNonexistent);
        done, tried := done + (result - before), tried + {p};
      }
    }
    AncestorOfItself(g, v);
    SettledRoot(g, visited, v, done, result, ignoreNonexistent);
    r := Ok(());
  }

  /** Recursing from each version in turn, in any order. */
  method RecurseFromAll(t: Graph, edges: Graph, versions: set<Version>, ignoreNonexistent: bool, ghost g: Graph)
    returns (r: Result<set<Version>>)
    requires g.Keys == t.Keys
    requires forall x :: x in t ==> g[x] == if x in edges then edges[x] else {}
    ensures r.Ok? ==> r.value == Ancestors(g, versions)
    ensures r.Err? ==> ReachesMissing(g, versions, r.missing)
    ensures r.Err? <==> !ignoreNonexistent && exists m :: ReachesMissing(g, versions, m)
  {
    var result := {};
    var todo := versions;
    while todo != {}
      invariant todo <= versions
      invariant result <= Ancestors(g, versions)
      invariant Settled(g, result, versions - todo, result, ignoreNonexistent)
    {
      var v :| v in todo;
      ghost var done, before := versions - todo, result;
      todo := todo - {v};
      var rv;
      rv, result := Recurse(t, edges, v, result, ignoreNonexistent, g);
      assert Ancestors(g, {v}) <= Ancestors(g, versions);
      if rv.Ok? {
        SettledMore(g, before, done, before, v, result, ignoreNonexistent);
        assert before + (result - before) == result && done + {v} == versions - todo;
      }
      if rv.Err? {
        assert ReachesMissing(g, versions, rv.missing);
        return Err(rv.missing);
      }
    }
    AncestorsAreLeast(g, versions, result);
    r := Ok(result);
  }

  /** `ancestors`: exactly the existing versions on walks up from `versions`; an error
      exactly when a missing name is reached and missing names are not ignored. */
  method AncestorsOf(t: Graph, versions: set<Version>, ignoreNonexistent: bool) returns (r: Result<set<Version>>)
    ensures r.Ok? ==> r.value == Ancestors(t, versions)
    ensures r.Err? ==> ReachesMissing(t, versions, r.missing)
    ensures r.Err? <==> !ignoreNonexistent && exists m :: ReachesMissing(t, versions, m)
  {
    r := RecurseFromAll(t, t, versions, ignoreNonexistent, t);
  }

  /** `descendants`: the existing versions that have one of `versions` as an ancestor.
      Children always exist, so only an unknown starting version can be an error. */
  method DescendantsOf(t: Graph, versions: set<Version>, ignoreNonexistent: bool) returns (r: Result<set<Version>>)
    ensures r.Ok? ==> forall w :: w in r.value <==> w in t && exists v :: v in versions && IsAncestor(t, v, w)
    ensures r.Err? ==> r.missing in versions - t.Keys
    ensures r.Err? <==> !ignoreNonexistent && !(versions <= t.Keys)
  {
    var children := GetChildMap(t);
    ghost var g := Reverse(t);
    r := RecurseFromAll(t, children, versions, ignoreNonexistent, g);
    assert forall x :: x in g ==> g[x] <= g.Keys;
    forall v, w | w in t && v in versions ensures IsAncestor(g, w, v) <==> IsAncestor(t, v, w) {
      if v in t { ReverseDuality(t, v, w); }
      else if IsAncestor(t, v, w) { BothExist(t, v, w); }
    }
    if !(versions <= t.Keys) {
      var m :| m in versions && m !in t;
      assert ReachesMissing(g, versions, m);
    }
  }
}
