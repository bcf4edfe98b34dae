/** The sequence CRDT as the linked nodes that are rewritten in place.  Every node carries,
    as ghost, the tree it stands for and the nodes it is made of. */
module SequenceNodes {
  import opened Text
  import opened VersionGraph
  import opened Bubble
  import opened Quotient
  import opened SequenceTree

  class SequenceNode {
    var version: Option<Version>
    var sortKey: Option<Version>
    var text: string
    var endCap: bool
    var deletedBy: set<Version>
    var nexts: seq<SequenceNode>
    var next: SequenceNode?

    ghost var Abs: Tree
    ghost var Repr: set<SequenceNode>

    /** The node stands for its tree: its own fields agree, and below it hang, inside its
        footprint, nodes that stand for the subtrees. */
    ghost predicate Valid()
      reads this, Repr
      decreases Repr, 0
    {
      && this in Repr
      && Abs.version == version && Abs.sortKey == sortKey && Abs.text == text && Abs.endCap == endCap
      && Abs.deletedBy == deletedBy
      && Below(nexts, next, Abs.nexts, Abs.next, Repr - {this})
    }

    /** The nodes stand for the trees, each in its own part of the region. */
    static ghost predicate Below(ns: seq<SequenceNode>, n: SequenceNode?, ts: seq<Tree>, t: Option<Tree>,
                                 region: set<SequenceNode>)
      reads region
      decreases region, 1
    {
      && |ns| == |ts|
      && (forall i :: 0 <= i < |ns| ==> ns[i] in region && ns[i].Repr <= region && ns[i].Valid() && ns[i].Abs == ts[i])
      && (forall i, j :: 0 <= i < j < |ns| ==> ns[i].Repr !! ns[j].Repr)
      && (n == null <==> t == None)
      && (n != null ==>
            && n in region && n.Repr <= region && n.Valid() && n.Abs == t.value
            && forall i :: 0 <= i < |ns| ==> ns[i].Repr !! n.Repr)
    }

    /** What validity says about a node's own fields and what hangs below it. */
    lemma Agrees()
      requires Valid()
      ensures Abs.version == version && Abs.sortKey == sortKey && Abs.text == text && Abs.endCap == endCap
      ensures Abs.deletedBy == deletedBy && (next == null <==> Abs.next == None)
      ensures this in Repr && Below(nexts, next, Abs.nexts, Abs.next, Repr - {this})
    {
    }

    /** Puts the node together anew from a text and valid nodes below it. */
    method Relink(text: string, endCap: bool, nexts: seq<SequenceNode>, next: SequenceNode?,
                  ghost ts: seq<Tree>, ghost t: Option<Tree>, ghost region: set<SequenceNode>)
      requires this !in region && Below(nexts, next, ts, t, region)
      requires Abs.version == version && Abs.sortKey == sortKey && Abs.deletedBy == deletedBy
      modifies this
      ensures Valid() && Repr == region + {this}
      ensures Abs == Node(old(Abs).version, old(Abs).sortKey, text, endCap, old(Abs).deletedBy, ts, t)
      ensures Abs.nexts == ts && Abs.next == t
    {
      this.text, this.endCap, this.nexts, this.next := text, endCap, nexts, next;
      Abs := Node(version, sortKey, text, endCap, deletedBy, ts, t);
      Repr := region + {this};
      assert Repr - {this} == region;
    }

    constructor (version: Option<Version>, text: string, endCap: bool, sortKey: Option<Version>)
      ensures Valid() && fresh(Repr) && Repr == {this}
      ensures Abs == Node(version, sortKey, text, endCap, {}, [], None)
    {
      this.version, this.sortKey, this.text, this.endCap := version, sortKey, text, endCap;
      deletedBy, nexts, next := {}, [], null;
      Abs, Repr := Node(version, sortKey, text, endCap, {}, [], None), {this};
      new;
      assert Repr - {this} == {};
    }

    // ----- reading -----

    method IsDeletedFor(view: View) returns (deleted: bool)
      requires Valid()
      ensures deleted == IsDeleted(Abs, view)
    {
      deleted := exists v | v in deletedBy :: view(v);
    }

    /** Appends this subtree's visible text, in traversal order. */
    method AppendContent(view: View, result: string) returns (r: string)
      requires Valid()
      ensures r == result + Content(Abs, view)
      decreases Repr, 1
    {
      var deleted := IsDeletedFor(view);
      r := if deleted then result else result + text;
      Associate(result, Own(Abs, view), Branches(Abs.nexts, view));
      Associate(result, Own(Abs, view) + Branches(Abs.nexts, view), Rest(Abs.next, view));
      r := AppendBranches(view, r);
      if next != null { r := next.AppendContent(view, r); }
    }

    /** The loop over the side branches. */
    method AppendBranches(view: View, result: string) returns (r: string)
      requires Valid()
      ensures r == result + Branches(Abs.nexts, view)
      decreases Repr, 0
    {
      r := result;
      for i := 0 to |nexts|
        invariant r == result + Branches(Abs.nexts[..i], view)
      {
        var n := nexts[i];
        n.Agrees();
        BranchesMore(Abs.nexts, i, view);
        Associate(result, Branches(Abs.nexts[..i], view), Shown(n.Abs, view));
        if n.version.Some? && view(n.version.value) { r := n.AppendContent(view, r); }
      }
      assert Abs.nexts[..|nexts|] == Abs.nexts;
    }

    method ContentOf(view: View) returns (r: string)
      requires Valid()
      ensures r == Content(Abs, view)
    {
      r := AppendContent(view, "");
    }

    /** Counts the visible characters. */
    method AddLength(view: View, count: nat) returns (r: nat)
      requires Valid()
      ensures r == count + |Content(Abs, view)|
      decreases Repr
    {
      r := count;
      var deleted := IsDeletedFor(view);
      if !deleted { r := r + |text|; }
      for i := 0 to |nexts|
        invariant r == count + |Own(Abs, view)| + |Branches(Abs.nexts[..i], view)|
      {
        BranchesMore(Abs.nexts, i, view);
        var n := nexts[i];
        n.Agrees();
        if n.version.Some? && view(n.version.value) { r := n.AddLength(view, r); }
      }
      assert Abs.nexts[..|nexts|] == Abs.nexts;
      if next != null { r := next.AddLength(view, r); }
    }

    method Length(view: View) returns (r: nat)
      requires Valid()
      ensures r == |Content(Abs, view)|
    {
      r := AddLength(view, 0);
    }

    /** What a walk to position `i` tells after passing `s`, having started at `offset`. */
    static ghost predicate Sought(i: nat, offset: nat, s: string, found: Option<char>, after: nat)
      requires offset <= i
    {
      if i < offset + |s| then found == Some(s[i - offset]) else found == None && after == offset + |s|
    }

    /** Two stretches passed one after the other are passed as one. */
    static lemma SoughtOn(i: nat, offset: nat, s: string, mid: nat, t: string, found: Option<char>, after: nat)
      requires offset <= i && Sought(i, offset, s, None, mid) && Sought(i, mid, t, found, after)
      ensures Sought(i, offset, s + t, found, after)
    {
      assert i - mid < |t| ==> (s + t)[i - offset] == t[i - mid];
    }

    /** What the first stretch answers, the longer one answers. */
    static lemma SoughtEarly(i: nat, offset: nat, s: string, t: string, found: Option<char>, after: nat)
      requires offset <= i && Sought(i, offset, s, found, after) && found.Some?
      ensures Sought(i, offset, s + t, found, after)
    {
    }

    /** Walks on until the character at `i` is reached; `offset` counts what was passed. */
    method Seek(i: nat, view: View, offset: nat) returns (found: Option<char>, after: nat)
      requires Valid() && offset <= i
      ensures Sought(i, offset, Content(Abs, view), found, after)
      decreases Repr, 1
    {
      ghost var own, branches, rest := Own(Abs, view), Branches(Abs.nexts, view), Rest(Abs.next, view);
      found, after := None, offset;
      var deleted := IsDeletedFor(view);
      if !deleted {
        if i < after + |text| {
          SoughtEarly(i, offset, own, branches, Some(text[i - after]), after);
          SoughtEarly(i, offset, own + branches, rest, Some(text[i - after]), after);
          return Some(text[i - after]), after;
        }
        after := after + |text|;
      }
      ghost var mid := after;
      found, after := SeekBranches(i, view, after);
      SoughtOn(i, offset, own, mid, branches, found, after);
      if found.Some? {
        SoughtEarly(i, offset, own + branches, rest, found, after);
        return;
      }
      mid := after;
      if next != null { found, after := next.Seek(i, view, after); }
      SoughtOn(i, offset, own + branches, mid, rest, found, after);
    }

    /** The loop over the side branches. */
    method SeekBranches(i: nat, view: View, offset: nat) returns (found: Option<char>, after: nat)
      requires Valid() && offset <= i
      ensures Sought(i, offset, Branches(Abs.nexts, view), found, after)
      decreases Repr, 0
    {
      found, after := None, offset;
      for k := 0 to |nexts|
        invariant found == None && Sought(i, offset, Branches(Abs.nexts[..k], view), None, after)
      {
        ghost var done, rest := Branches(Abs.nexts[..k], view), Branches(Abs.nexts[k + 1..], view);
        assert Branches(Abs.nexts[..k + 1], view) == done + Shown(Abs.nexts[k], view) by {
          BranchesMore(Abs.nexts, k, view);
        }
        var n := nexts[k];
        n.Agrees();
        if n.version.Some? && view(n.version.value) {
          ghost var mid := after;
          found, after := n.Seek(i, view, after);
          SoughtOn(i, offset, done, mid, Content(n.Abs, view), found, after);
          if found.Some? {
            BranchesSplit(Abs.nexts, k + 1, view);
            SoughtEarly(i, offset, Branches(Abs.nexts[..k + 1], view), rest, found, after);
            return;
          }
        }
      }
      assert Abs.nexts[..|nexts|] == Abs.nexts;
    }

    method Get(i: nat, view: View) returns (c: Option<char>)
      requires Valid()
      ensures c == if i < |Content(Abs, view)| then Some(Content(Abs, view)[i]) else None
    {
      var after;
      c, after := Seek(i, view, 0);
    }

    // ----- editing -----

    /** A copy of the node's lower part: what a cut at `x` leaves below. */
    method MakeTail(x: nat) returns (tail: SequenceNode)
      requires Valid() && x <= |text|
      ensures fresh(tail) && tail.Valid() && tail.Repr == Repr - {this} + {tail} && tail.Abs == TailOf(Abs, x)
    {
      tail := new SequenceNode(None, text[x..], endCap, None);
      tail.deletedBy := deletedBy;
      tail.Abs := tail.Abs.(deletedBy := deletedBy);
      tail.Relink(text[x..], endCap, nexts, next, Abs.nexts, Abs.next, Repr - {this});
    }

    /** Cuts the node at `x`: the rest becomes its continuation, and `newNext`, if any, its
        only side branch. */
    method BreakNode(x: nat, endCap: bool, newNext: SequenceNode?) returns (tail: SequenceNode)
      requires Valid() && x <= |text|
      requires newNext != null ==> newNext.Valid() && newNext.Repr !! Repr
      modifies this
      ensures Valid() && Abs == Broken(old(Abs), x, endCap, if newNext == null then None else Some(newNext.Abs))
      ensures fresh(tail) && Repr == old(Repr) + {tail} + if newNext == null then {} else newNext.Repr
    {
      tail := MakeTail(x);
      if newNext == null {
        Relink(text[..x], endCap, [], tail, [], Some(tail.Abs), tail.Repr);
      } else {
        Relink(text[..x], endCap, [newNext], tail, [newNext.Abs], Some(tail.Abs), tail.Repr + newNext.Repr);
      }
    }

    /** Puts a new branch after the existing ones. */
    method PushNext(n: SequenceNode)
      requires Valid() && n.Valid() && n.Repr !! Repr
      modifies this
      ensures Valid() && Abs == PushBranch(old(Abs), n.Abs) && Repr == old(Repr) + n.Repr
    {
      Relink(text, endCap, nexts + [n], next, Abs.nexts + [n.Abs], Abs.next, Repr - {this} + n.Repr);
    }

    method MarkDeleted(version: Version)
      requires Valid()
      modifies this
      ensures Valid() && Abs == old(Abs).(deletedBy := old(Abs).deletedBy + {version}) && Repr == old(Repr)
    {
      deletedBy := deletedBy + {version};
      Abs := Abs.(deletedBy := deletedBy);
    }

    /** `add_version` with its `process_splices`, which looks at the root and the first edit. */
    method AddEdits(version: Version, edits: seq<Edit>, view: View)
      requires Valid()
      modifies this
      ensures Valid() && Abs == AddVersion(old(Abs), version, edits, view) && fresh(Repr - old(Repr))
    {
      if edits == [] { return; }
      var e := edits[0];
      var deleted := IsDeletedFor(view);
      if deleted {
        if e.deleteCount == 0 && e.pos == 0 {
          var leaf := new SequenceNode(Some(version), e.insert, false, e.sortKey);
          PushNext(leaf);
        }
        return;
      }
      if e.deleteCount == 0 {
        if e.pos > |text| { return; }
        if e.pos == |text| && !endCap && nexts != [] { return; }
        var leaf := new SequenceNode(Some(version), e.insert, false, e.sortKey);
        if e.pos == |text| && !endCap {
          PushNext(leaf);
        } else {
          var _ := BreakNode(e.pos, false, leaf);
        }
        return;
      }
      if e.pos >= |text| { return; }
      if e.insert != "" {
        var leaf := new SequenceNode(Some(version), e.insert, false, e.sortKey);
        var _ := BreakNode(e.pos, true, leaf);
        return;
      }
      if e.pos != 0 {
        var _ := BreakNode(e.pos, false, null);
        return;
      }
      if e.deleteCount < |text| {
        var _ := BreakNode(e.deleteCount, false, null);
      }
      MarkDeleted(version);
    }

    // ----- compression -----

    /** Renames the deleting versions one at a time, in any order. */
    method RenameDeletedBy(b: Bubbles) returns (r: set<Version>)
      ensures LoopResult(b, deletedBy, r)
    {
      r := deletedBy;
      var todo := deletedBy;
      ghost var order: seq<Version> := [];
      while todo != {}
        invariant todo <= deletedBy && Members(order) == deletedBy - todo
        invariant forall i, j :: 0 <= i < j < |order| ==> order[i] != order[j]
        invariant r == RenameInOrder(b, order, deletedBy)
      {
        var v :| v in todo;
        assert v !in Members(order);
        assert (order + [v])[..|order|] == order;
        assert Members(order + [v]) == Members(order) + {v};
        todo, order := todo - {v}, order + [v];
        if v in b { r := r - {v} + {b[v].0}; }
      }
    }

    method RenameSelf(b: Bubbles)
      requires Valid()
      modifies `version, `sortKey, `deletedBy, `Abs
      ensures Valid() && LoopResult(b, old(Abs).deletedBy, Abs.deletedBy)
      ensures var r := RenameTree(old(Abs), b);
              Abs == old(Abs).(version := r.version, sortKey := r.sortKey, deletedBy := Abs.deletedBy)
    {
      if version.Some? && version.value in b && b[version.value].0 != version.value {
        if sortKey.None? { sortKey := version; }
        version := Some(b[version.value].0);
      }
      var renamed := RenameDeletedBy(b);
      deletedBy := renamed;
      Abs := Abs.(version := version, sortKey := sortKey, deletedBy := deletedBy);
    }

    /** The nodes directly below, the continuation last. */
    function Under(): seq<SequenceNode>
      reads this
    {
      nexts + if next == null then [] else [next]
    }

    static ghost function Trees(ts: seq<Tree>, t: Option<Tree>): seq<Tree> {
      ts + if t.None? then [] else [t.value]
    }

    static lemma Together(ns: seq<SequenceNode>, n: SequenceNode?, ts: seq<Tree>, t: Option<Tree>,
                          region: set<SequenceNode>)
      requires |ns| == |ts| && (n == null <==> t == None)
      ensures Below(ns, n, ts, t, region) <==>
              Below(ns + (if n == null then [] else [n]), null, Trees(ts, t), None, region)
    {
      var ns', ts' := ns + (if n == null then [] else [n]), Trees(ts, t);
      if n == null { assert ns' == ns && ts' == ts; }
      if Below(ns', null, ts', None, region) {
        forall i | 0 <= i < |ns|
          ensures ns[i] in region && ns[i].Repr <= region && ns[i].Valid() && ns[i].Abs == ts[i]
        {
          assert ns'[i] == ns[i] && ts'[i] == ts[i];
        }
        forall i, j | 0 <= i < j < |ns| ensures ns[i].Repr !! ns[j].Repr { assert ns'[i] == ns[i] && ns'[j] == ns[j]; }
        if n != null {
          assert ns'[|ns|] == n && ts'[|ts|] == t.value;
          forall i | 0 <= i < |ns| ensures ns[i].Repr !! n.Repr { assert ns'[i] == ns[i]; }
        }
      }
    }

    /** Renames one of several nodes; the others have their own footprints and stay. */
    static method RenameAt(ns: seq<SequenceNode>, k: nat, b: Bubbles, ghost ts: seq<Tree>,
                           ghost region: set<SequenceNode>)
      returns (ghost r: Tree)
      requires Below(ns, null, ts, None, region) && k < |ns|
      modifies region
      ensures RenamedTo(ts[k], b, r) && Below(ns, null, ts[k := r], None, region)
      decreases region, 5
    {
      ghost var others := set j | 0 <= j < |ns| && j != k :: ns[j];
      assert forall n :: n in others ==> n.Valid() && n.Repr !! ns[k].Repr;
      ns[k].RenameVersions(b);
      r := ns[k].Abs;
      assert forall n :: n in others ==> n.Valid() && n.Repr == old(n.Repr) && n.Abs == old(n.Abs);
      assert forall j :: 0 <= j < |ns| && j != k ==> ns[j] in others;
    }

    static method RenameNodes(ns: seq<SequenceNode>, b: Bubbles, ghost ts: seq<Tree>, ghost region: set<SequenceNode>)
      returns (ghost now: seq<Tree>)
      requires Below(ns, null, ts, None, region)
      modifies region
      ensures |now| == |ts| && Below(ns, null, now, None, region)
      ensures forall i :: 0 <= i < |ts| ==> RenamedTo(ts[i], b, now[i])
      decreases region, 6
    {
      now := ts;
      for k := 0 to |ns|
        invariant |now| == |ts| && Below(ns, null, now, None, region)
        invariant forall i :: 0 <= i < k ==> RenamedTo(ts[i], b, now[i])
        invariant forall i :: k <= i < |ts| ==> now[i] == ts[i]
      {
        ghost var r := RenameAt(ns, k, b, now, region);
        now := now[k := r];
      }
    }

    static lemma SplitRenamed(t: Tree, b: Bubbles, now: seq<Tree>) returns (after: seq<Tree>, afterNext: Option<Tree>)
      requires |now| == |Trees(t.nexts, t.next)|
      requires forall i :: 0 <= i < |now| ==> RenamedTo(Trees(t.nexts, t.next)[i], b, now[i])
      ensures Trees(after, afterNext) == now && |after| == |t.nexts| && (afterNext == None <==> t.next == None)
      ensures RenamedBelow(t, b, t.(nexts := after, next := afterNext))
    {
      var ts, n := Trees(t.nexts, t.next), |t.nexts|;
      after, afterNext := now[..n], if t.next.None? then None else Some(now[n]);
      forall i | 0 <= i < n ensures RenamedTo(t.nexts[i], b, after[i]) { assert ts[i] == t.nexts[i]; }
      assert t.next.Some? ==> ts[n] == t.next.value;
    }

    /** Branches and continuation, each renamed in turn. */
    method RenameBelow(b: Bubbles)
      requires Valid()
      modifies Repr
      ensures Valid() && Repr == old(Repr)
      ensures Abs == old(Abs).(nexts := Abs.nexts, next := Abs.next) && RenamedBelow(old(Abs), b, Abs)
      decreases Repr, 3
    {
      ghost var before, region := Abs, Repr - {this};
      Together(nexts, next, before.nexts, before.next, region);
      ghost var now := RenameNodes(Under(), b, Trees(before.nexts, before.next), region);
      ghost var after, afterNext := SplitRenamed(before, b, now);
      Together(nexts, next, after, afterNext, region);
      Relink(text, endCap, nexts, next, after, afterNext, region);
    }

    /** The renaming pass: this node, then its branches, then its continuation. */
    method RenameVersions(b: Bubbles)
      requires Valid()
      modifies Repr
      ensures Valid() && Repr == old(Repr) && RenamedTo(old(Abs), b, Abs)
      decreases Repr, 4
    {
      RenameSelf(b);
      RenameBelow(b);
    }

    /** Takes the continuation into the node. */
    method AbsorbNext()
      requires Valid() && CanAbsorb(Abs)
      modifies this
      ensures Valid() && Repr <= old(Repr) && Abs == AbsorbOne(old(Abs))
      ensures old(next) != null && Repr == old(next.Repr) - {old(next)} + {this}
    {
      next.Agrees();
      Relink(text + next.text, next.endCap, next.nexts, next.next, next.Abs.nexts, next.Abs.next, next.Repr - {next});
    }

    /** Joins the node with its continuation as long as both carry text under the same deletions. */
    method AbsorbAll()
      requires Valid()
      modifies this
      ensures Valid() && Repr <= old(Repr) && Abs == Absorb(old(Abs))
    {
      while next != null && nexts == [] && text != "" && next.text != "" && deletedBy == next.deletedBy
        invariant Valid() && Repr <= old(Repr) && Absorb(Abs) == Absorb(old(Abs))
        decreases Abs.next
      {
        next.Agrees();
        AbsorbNext();
      }
      if next != null { next.Agrees(); }
    }

    static method MergeAt(ns: seq<SequenceNode>, k: nat, ghost ts: seq<Tree>, ghost region: set<SequenceNode>)
      requires Below(ns, null, ts, None, region) && k < |ns|
      modifies region
      ensures Below(ns, null, ts[k := Merge(ts[k])], None, region)
      decreases region, 5
    {
      ns[k].MergeNodes();
    }

    static method MergeEach(ns: seq<SequenceNode>, ghost ts: seq<Tree>, ghost region: set<SequenceNode>)
      requires Below(ns, null, ts, None, region)
      modifies region
      ensures Below(ns, null, seq(|ts|, i requires 0 <= i < |ts| => Merge(ts[i])), None, region)
      decreases region, 6
    {
      ghost var now := ts;
      for k := 0 to |ns|
        invariant Below(ns, null, now, None, region)
        invariant forall i :: 0 <= i < |ts| ==> now[i] == if i < k then Merge(ts[i]) else ts[i]
      {
        MergeAt(ns, k, now, region);
        now := now[k := Merge(now[k])];
      }
      assert now == seq(|ts|, i requires 0 <= i < |ts| => Merge(ts[i]));
    }

    /** Whether there are branches and all of them carry the node's own version. */
    method HasOnlyOwnBranches() returns (all: bool)
      requires Valid()
      ensures all <==> Abs.nexts != [] && forall i :: 0 <= i < |Abs.nexts| ==> Abs.nexts[i].version == Abs.version
    {
      if nexts == [] { return false; }
      for k := 0 to |nexts|
        invariant forall i :: 0 <= i < k ==> Abs.nexts[i].version == version
      {
        nexts[k].Agrees();
        if nexts[k].version != version { return false; }
      }
      all := true;
    }

    /** The node itself: own branches dropped, continuation joined. */
    method MergeHere()
      requires Valid()
      modifies this
      ensures Valid() && Repr <= old(Repr) && Abs == MergeSelf(old(Abs))
    {
      var drop := HasOnlyOwnBranches();
      if drop { Relink(text, endCap, [], next, [], Abs.next, Repr - {this}); }
      AbsorbAll();
    }

    /** Branches and continuation, each merged in turn. */
    method MergeBelow()
      requires Valid()
      modifies Repr
      ensures Valid() && Repr == old(Repr)
      ensures Abs == old(Abs).(nexts := MergeAll(old(Abs).nexts),
                               next := if old(Abs).next.None? then None else Some(Merge(old(Abs).next.value)))
      decreases Repr, 3
    {
      ghost var u := Abs;
      ghost var region := Repr - {this};
      ghost var ts := Trees(u.nexts, u.next);
      Together(nexts, next, u.nexts, u.next, region);
      MergeEach(Under(), ts, region);
      ghost var merged := MergeAll(u.nexts);
      ghost var mergedNext := if u.next.None? then None else Some(Merge(u.next.value));
      MergeAllAt(u.nexts);
      assert Trees(merged, mergedNext) == seq(|ts|, i requires 0 <= i < |ts| => Merge(ts[i]));
      Together(nexts, next, merged, mergedNext, region);
      Relink(text, endCap, nexts, next, merged, mergedNext, region);
    }

    /** The merging pass: this node, then its branches, then its continuation. */
    method MergeNodes()
      requires Valid()
      modifies Repr
      ensures Valid() && Repr <= old(Repr) && Abs == Merge(old(Abs))
      decreases Repr, 4
    {
      MergeSelfShrinks(Abs);
      MergeHere();
      MergeBelow();
    }

    /** `apply_bubbles`.  `renamed` is the tree between the two passes. */
    method Compress(b: Bubbles) returns (ghost renamed: Tree)
      requires Valid()
      modifies Repr
      ensures Valid() && Repr <= old(Repr)
      ensures RenamedTo(old(Abs), b, renamed) && Abs == Merge(renamed)
      ensures NamesSettled(b) ==> Abs == ApplyBubbles(old(Abs), b)
    {
      RenameVersions(b);
      renamed := Abs;
      if NamesSettled(b) { SettledRenaming(old(Abs), b, renamed); }
      MergeNodes();
    }
  }

  lemma BranchesMore(ts: seq<Tree>, i: nat, view: View)
    requires i < |ts|
    ensures Branches(ts[..i + 1], view) == Branches(ts[..i], view) + Shown(ts[i], view)
  {
    BranchesConcat(ts[..i], [ts[i]], view);
    OneBranch(ts[i], view);
    assert ts[..i + 1] == ts[..i] + [ts[i]];
  }

  lemma BranchesSplit(ts: seq<Tree>, i: nat, view: View)
    requires i <= |ts|
    ensures Branches(ts, view) == Branches(ts[..i], view) + Branches(ts[i..], view)
  {
    BranchesConcat(ts[..i], ts[i..], view);
    assert ts == ts[..i] + ts[i..];
  }
}
