/** The sequence CRDT as a value: a tree of text slices with side branches, read through a
    view that says which versions count. */
module SequenceTree {
  import opened Text
  import opened VersionGraph
  import opened Bubble
  import opened Quotient

  /** One node with its side branches (`nexts`) and its continuation (`next`). */
  datatype Tree = Node(version: Option<Version>, sortKey: Option<Version>, text: string, endCap: bool,
                       deletedBy: set<Version>, nexts: seq<Tree>, next: Option<Tree>)

  type View = Version -> bool

  // ---------- reading ----------

  predicate IsDeleted(t: Tree, view: View) {
    exists v | v in t.deletedBy :: view(v)
  }

  predicate IsShown(t: Tree, view: View) {
    t.version.Some? && view(t.version.value)
  }

  function Own(t: Tree, view: View): string {
    if IsDeleted(t, view) then "" else t.text
  }

  /** The text under a view: the node's own, then the branches the view shows, then the rest. */
  function Content(t: Tree, view: View): string
    decreases t, 0
  {
    Own(t, view) + Branches(t.nexts, view) + Rest(t.next, view)
  }

  function Branches(ts: seq<Tree>, view: View): string
    decreases ts, 0
  {
    if ts == [] then ""
    else Shown(ts[0], view) + Branches(ts[1..], view)
  }

  function Shown(t: Tree, view: View): string
    decreases t, 1
  {
    if IsShown(t, view) then Content(t, view) else ""
  }

  function Rest(t: Option<Tree>, view: View): string
    decreases t, 0
  {
    if t.None? then "" else Content(t.value, view)
  }

  lemma {:induction false} BranchesConcat(ts: seq<Tree>, us: seq<Tree>, view: View)
    ensures Branches(ts + us, view) == Branches(ts, view) + Branches(us, view)
  {
    if ts == [] {
      assert ts + us == us;
    } else {
      BranchesConcat(ts[1..], us, view);
      assert (ts + us)[1..] == ts[1..] + us && (ts + us)[0] == ts[0];
      Associate(Shown(ts[0], view), Branches(ts[1..], view), Branches(us, view));
    }
  }

  /** A branch is read exactly when it has a version and the view counts it. */
  lemma BranchIsRead(n: Tree, view: View)
    ensures Branches([n], view) == if exists v :: n.version == Some(v) && view(v) then Content(n, view) else ""
  {
    assert [n][1..] == [];
    Associate(Shown(n, view), "", "");
  }

  // ---------- breaking a node ----------

  /** What is cut off: the text from x on, with the branches and the continuation. */
  function TailOf(t: Tree, x: nat): Tree
    requires x <= |t.text|
  {
    Node(None, None, t.text[x..], t.endCap, t.deletedBy, t.nexts, t.next)
  }

  function Broken(t: Tree, x: nat, endCap: bool, newNext: Option<Tree>): Tree
    requires x <= |t.text|
  {
    Node(t.version, t.sortKey, t.text[..x], endCap, t.deletedBy,
         if newNext.Some? then [newNext.value] else [], Some(TailOf(t, x)))
  }

  function Splice(s: string, at: nat, text: string): string
    requires at <= |s|
  {
    s[..at] + text + s[at..]
  }

  lemma OneBranch(n: Tree, view: View)
    ensures Branches([n], view) == Shown(n, view)
  {
    assert [n][1..] == [];
    Associate(Shown(n, view), "", "");
  }

  /** What a branch put in at a break contributes. */
  function NewText(newNext: Option<Tree>, view: View): string {
    if newNext.Some? then Shown(newNext.value, view) else ""
  }

  lemma BrokenParts(t: Tree, x: nat, endCap: bool, newNext: Option<Tree>, view: View)
    requires x <= |t.text|
    ensures Content(Broken(t, x, endCap, newNext), view) ==
            (if IsDeleted(t, view) then "" else t.text[..x]) + NewText(newNext, view)
            + ((if IsDeleted(t, view) then "" else t.text[x..]) + Branches(t.nexts, view) + Rest(t.next, view))
  {
    var broken, tail := Broken(t, x, endCap, newNext), TailOf(t, x);
    if newNext.Some? { OneBranch(newNext.value, view); }
    assert IsDeleted(broken, view) == IsDeleted(tail, view) == IsDeleted(t, view);
    assert Rest(broken.next, view) == Content(tail, view);
  }

  lemma SplitAround(own: string, x: nat, text: string, a: string, b: string)
    requires x <= |own|
    ensures Splice(own + a + b, x, text) == own[..x] + text + (own[x..] + a + b)
  {
    assert (own + a + b)[..x] == own[..x] && (own + a + b)[x..] == own[x..] + a + b;
  }

  /** Breaking a node shows no difference, except for a branch put in at the break. */
  lemma BreakKeepsText(t: Tree, x: nat, endCap: bool, newNext: Option<Tree>, view: View)
    requires x <= |t.text|
    ensures var at := if IsDeleted(t, view) then 0 else x;
            at <= |Content(t, view)|
            && Content(Broken(t, x, endCap, newNext), view) == Splice(Content(t, view), at, NewText(newNext, view))
  {
    BrokenParts(t, x, endCap, newNext, view);
    SplitAround(Own(t, view), if IsDeleted(t, view) then 0 else x, NewText(newNext, view),
                Branches(t.nexts, view), Rest(t.next, view));
  }

  lemma SpliceNothing(s: string, at: nat)
    requires at <= |s|
    ensures Splice(s, at, "") == s
  {
  }

  /** Without a new branch a break is invisible. */
  lemma PlainBreakIsInvisible(t: Tree, x: nat, endCap: bool, view: View)
    requires x <= |t.text|
    ensures Content(Broken(t, x, endCap, None), view) == Content(t, view)
  {
    BreakKeepsText(t, x, endCap, None, view);
    SpliceNothing(Content(t, view), if IsDeleted(t, view) then 0 else x);
  }

  // ---------- adding a version ----------

  datatype Edit = Edit(pos: nat, deleteCount: nat, insert: string, sortKey: Option<Version>)

  function NewLeaf(version: Version, e: Edit): Tree {
    Node(Some(version), e.sortKey, e.insert, false, {}, [], None)
  }

  function PushBranch(t: Tree, n: Tree): Tree {
    t.(nexts := t.nexts + [n])
  }

  /** `add_version`: only the first edit is looked at, and only at the root. */
  function AddVersion(t: Tree, version: Version, edits: seq<Edit>, view: View): Tree {
    if edits == [] then t
    else
      var e := edits[0];
      var leaf := NewLeaf(version, e);
      if IsDeleted(t, view) then
        if e.deleteCount == 0 && e.pos == 0 then PushBranch(t, leaf) else t
      else if e.deleteCount == 0 then
        if e.pos > |t.text| || (e.pos == |t.text| && !t.endCap && t.nexts != []) then t
        else if e.pos == |t.text| && !t.endCap then PushBranch(t, leaf)
        else Broken(t, e.pos, false, Some(leaf))
      else if e.pos >= |t.text| then t
      else if e.insert != "" then Broken(t, e.pos, true, Some(leaf))
      else if e.pos != 0 then Broken(t, e.pos, false, None)
      else
        var cut := if e.deleteCount < |t.text| then Broken(t, e.deleteCount, false, None) else t;
        cut.(deletedBy := cut.deletedBy + {version})
  }

  /** Whether an insertion in the writer's visible root is carried out. */
  predicate InsertLands(t: Tree, pos: nat) {
    pos <= |t.text| && !(pos == |t.text| && !t.endCap && t.nexts != [])
  }

  lemma LeafContent(version: Version, e: Edit, view: View)
    ensures Content(NewLeaf(version, e), view) == e.insert
    ensures Shown(NewLeaf(version, e), view) == if view(version) then e.insert else ""
  {
    Associate(e.insert, "", "");
  }

  /** Where a pushed branch appears: after the root's text and its older branches. */
  function PushPoint(t: Tree, view: View): nat {
    |Own(t, view) + Branches(t.nexts, view)|
  }

  lemma PushIsSplice(t: Tree, n: Tree, view: View)
    ensures PushPoint(t, view) <= |Content(t, view)|
    ensures Content(PushBranch(t, n), view) == Splice(Content(t, view), PushPoint(t, view), Shown(n, view))
  {
    BranchesConcat(t.nexts, [n], view);
    OneBranch(n, view);
    assert IsDeleted(PushBranch(t, n), view) == IsDeleted(t, view);
    var own, branches, rest := Own(t, view), Branches(t.nexts, view), Rest(t.next, view);
    assert (own + branches + rest)[..|own + branches|] == own + branches &&
           (own + branches + rest)[|own + branches|..] == rest;
    Associate(own, branches, Shown(n, view));
  }

  /** A pure insert at a place in the root's own text, read under any view: views that count
      the new version see the text spliced in there, all others see no difference; and an
      insert that does not land is seen by nobody. */
  lemma InsertIsSplice(t: Tree, version: Version, edits: seq<Edit>, writer: View, reader: View)
    requires edits != [] && edits[0].deleteCount == 0 && !IsDeleted(t, writer)
    ensures var e := edits[0];
            var before, after := Content(t, reader), Content(AddVersion(t, version, edits, writer), reader);
            var at := if IsDeleted(t, reader) then 0 else e.pos;
            if InsertLands(t, e.pos) && reader(version) then at <= |before| && after == Splice(before, at, e.insert)
            else after == before
  {
    var e := edits[0];
    var leaf := NewLeaf(version, e);
    LeafContent(version, e, reader);
    if InsertLands(t, e.pos) {
      if e.pos == |t.text| && !t.endCap {
        PushIsSplice(t, leaf, reader);
        Associate(Own(t, reader), "", "");
      } else {
        BreakKeepsText(t, e.pos, false, Some(leaf), reader);
      }
      SpliceNothing(Content(t, reader), if IsDeleted(t, reader) then 0 else e.pos);
    }
  }

  /** Where the writer sees the root deleted, only an insert at zero is carried out; it
      appears after the root's older branches. */
  lemma InsertAtDeletedRoot(t: Tree, version: Version, edits: seq<Edit>, writer: View, reader: View)
    requires edits != [] && edits[0].deleteCount == 0 && IsDeleted(t, writer)
    ensures var e := edits[0];
            var before, after := Content(t, reader), Content(AddVersion(t, version, edits, writer), reader);
            if e.pos == 0 && reader(version)
            then PushPoint(t, reader) <= |before| && after == Splice(before, PushPoint(t, reader), e.insert)
            else after == before
  {
    var leaf := NewLeaf(version, edits[0]);
    LeafContent(version, edits[0], reader);
    PushIsSplice(t, leaf, reader);
    SpliceNothing(Content(t, reader), PushPoint(t, reader));
  }

  /** Any other edit there is not carried out. */
  lemma DeletedRootStays(t: Tree, version: Version, edits: seq<Edit>, writer: View)
    requires IsDeleted(t, writer) && edits != [] && (edits[0].deleteCount > 0 || edits[0].pos > 0)
    ensures AddVersion(t, version, edits, writer) == t
  {
  }

  /** So a visible insert shows up exactly when it lands. */
  lemma InsertShowsIffItLands(t: Tree, version: Version, edits: seq<Edit>, writer: View, reader: View)
    requires edits != [] && edits[0].deleteCount == 0 && !IsDeleted(t, writer)
    requires edits[0].insert != "" && reader(version)
    ensures |Content(AddVersion(t, version, edits, writer), reader)| > |Content(t, reader)| <==>
            InsertLands(t, edits[0].pos)
  {
    InsertIsSplice(t, version, edits, writer, reader);
  }

  lemma MarkUnseen(t: Tree, version: Version, reader: View)
    requires !reader(version)
    ensures Content(t.(deletedBy := t.deletedBy + {version}), reader) == Content(t, reader)
  {
    assert IsDeleted(t.(deletedBy := t.deletedBy + {version}), reader) == IsDeleted(t, reader);
  }

  lemma UnseenBreak(t: Tree, x: nat, endCap: bool, leaf: Tree, reader: View)
    requires x <= |t.text| && !IsShown(leaf, reader)
    ensures Content(Broken(t, x, endCap, Some(leaf)), reader) == Content(t, reader)
  {
    BreakKeepsText(t, x, endCap, Some(leaf), reader);
    SpliceNothing(Content(t, reader), if IsDeleted(t, reader) then 0 else x);
  }

  lemma UnseenPush(t: Tree, leaf: Tree, reader: View)
    requires !IsShown(leaf, reader)
    ensures Content(PushBranch(t, leaf), reader) == Content(t, reader)
  {
    PushIsSplice(t, leaf, reader);
    SpliceNothing(Content(t, reader), PushPoint(t, reader));
  }

  /** Whatever the edit, views that do not count its version see no difference. */
  lemma OthersSeeNothing(t: Tree, version: Version, edits: seq<Edit>, writer: View, reader: View)
    requires !reader(version)
    ensures Content(AddVersion(t, version, edits, writer), reader) == Content(t, reader)
  {
    if edits != [] {
      var e := edits[0];
      var leaf, after := NewLeaf(version, e), AddVersion(t, version, edits, writer);
      if after == t {
      } else if after == PushBranch(t, leaf) {
        UnseenPush(t, leaf, reader);
      } else if e.pos <= |t.text| && after == Broken(t, e.pos, after.endCap, Some(leaf)) {
        UnseenBreak(t, e.pos, after.endCap, leaf, reader);
      } else if e.pos <= |t.text| && after == Broken(t, e.pos, false, None) {
        PlainBreakIsInvisible(t, e.pos, false, reader);
      } else {
        var cut := if e.deleteCount < |t.text| then Broken(t, e.deleteCount, false, None) else t;
        if e.deleteCount < |t.text| { PlainBreakIsInvisible(t, e.deleteCount, false, reader); }
        MarkUnseen(cut, version, reader);
      }
    }
  }

  lemma MarkedText(t: Tree, version: Version, reader: View)
    requires reader(version)
    ensures Content(t.(deletedBy := t.deletedBy + {version}), reader) ==
            Branches(t.nexts, reader) + Rest(t.next, reader)
  {
    assert version in t.(deletedBy := t.deletedBy + {version}).deletedBy;
  }

  /** Deleting from the front of the root removes that much text. */
  lemma FrontDeletes(t: Tree, version: Version, count: nat, reader: View)
    requires 0 < count <= |t.text| && reader(version) && !IsDeleted(t, reader)
    ensures count <= |Content(t, reader)|
    ensures var cut := if count < |t.text| then Broken(t, count, false, None) else t;
            Content(cut.(deletedBy := cut.deletedBy + {version}), reader) == Content(t, reader)[count..]
  {
    var a, b := Branches(t.nexts, reader), Rest(t.next, reader);
    assert (t.text + a + b)[count..] == t.text[count..] + a + b;
    if count < |t.text| {
      var cut := Broken(t, count, false, None);
      MarkedText(cut, version, reader);
      assert IsDeleted(TailOf(t, count), reader) == IsDeleted(t, reader);
      Associate(Content(TailOf(t, count), reader), "", "");
    } else {
      MarkedText(t, version, reader);
      Associate(a + b, "", "");
    }
  }

  /** Replacing or deleting text inside the root does what the edit asks for exactly when it
      is a pure deletion at the very front; otherwise nothing is removed. */
  lemma DeletesOnlyAtFront(t: Tree, version: Version, edits: seq<Edit>, writer: View, reader: View)
    requires edits != [] && edits[0].deleteCount > 0 && edits[0].pos + edits[0].deleteCount <= |t.text|
    requires !IsDeleted(t, writer) && !IsDeleted(t, reader) && reader(version)
    ensures var e := edits[0];
            var before, after := Content(t, reader), Content(AddVersion(t, version, edits, writer), reader);
            e.pos + e.deleteCount <= |before|
            && (after == before[..e.pos] + e.insert + before[e.pos + e.deleteCount..] <==> e.pos == 0 && e.insert == "")
  {
    var e := edits[0];
    var before := Content(t, reader);
    LeafContent(version, e, reader);
    if e.insert != "" {
      BreakKeepsText(t, e.pos, true, Some(NewLeaf(version, e)), reader);
    } else if e.pos != 0 {
      PlainBreakIsInvisible(t, e.pos, false, reader);
    } else {
      FrontDeletes(t, version, e.deleteCount, reader);
      Associate(before[e.deleteCount..], "", "");
    }
  }

  /** Replacing text inside the root puts the new text in at its position and removes nothing. */
  lemma ReplacementIsSplice(t: Tree, version: Version, edits: seq<Edit>, writer: View, reader: View)
    requires edits != [] && edits[0].deleteCount > 0 && edits[0].insert != "" && !IsDeleted(t, writer)
    ensures var e := edits[0];
            var before, after := Content(t, reader), Content(AddVersion(t, version, edits, writer), reader);
            var at := if IsDeleted(t, reader) then 0 else e.pos;
            if e.pos < |t.text| && reader(version) then at <= |before| && after == Splice(before, at, e.insert)
            else after == before
  {
    var e := edits[0];
    LeafContent(version, e, reader);
    if e.pos < |t.text| {
      BreakKeepsText(t, e.pos, true, Some(NewLeaf(version, e)), reader);
      SpliceNothing(Content(t, reader), if IsDeleted(t, reader) then 0 else e.pos);
    }
  }

  /** A pure deletion removes text only at the very front, and no more than the root's own. */
  lemma DeletionRemovesFront(t: Tree, version: Version, edits: seq<Edit>, writer: View, reader: View)
    requires edits != [] && edits[0].deleteCount > 0 && edits[0].insert == "" && !IsDeleted(t, writer)
    ensures var e := edits[0];
            var before, after := Content(t, reader), Content(AddVersion(t, version, edits, writer), reader);
            var removed := if e.deleteCount < |t.text| then e.deleteCount else |t.text|;
            if e.pos == 0 && reader(version) && !IsDeleted(t, reader)
            then removed <= |before| && after == before[removed..]
            else after == before
  {
    var e := edits[0];
    if !reader(version) {
      OthersSeeNothing(t, version, edits, writer, reader);
    } else if 0 < e.pos < |t.text| {
      PlainBreakIsInvisible(t, e.pos, false, reader);
    } else if e.pos == 0 && t.text != "" {
      var count := if e.deleteCount < |t.text| then e.deleteCount else |t.text|;
      var cut := if count < |t.text| then Broken(t, count, false, None) else t;
      if IsDeleted(t, reader) {
        if count < |t.text| { PlainBreakIsInvisible(t, count, false, reader); }
        MarkAgain(cut, version, reader);
      } else {
        FrontDeletes(t, version, count, reader);
      }
    }
  }

  /** Deleting what a view sees deleted already changes nothing for it. */
  lemma MarkAgain(t: Tree, version: Version, reader: View)
    requires IsDeleted(t, reader)
    ensures Content(t.(deletedBy := t.deletedBy + {version}), reader) == Content(t, reader)
  {
    var v :| v in t.deletedBy && reader(v);
    assert v in t.(deletedBy := t.deletedBy + {version}).deletedBy;
  }

  /** What an edit that puts text in leaves at the root: a branch of its version with its text and
      its sort key, the last one there. */
  lemma NewBranchIsThere(t: Tree, version: Version, edits: seq<Edit>, writer: View)
    requires edits != [] && !IsDeleted(t, writer)
    requires if edits[0].deleteCount == 0 then InsertLands(t, edits[0].pos)
             else edits[0].insert != "" && edits[0].pos < |t.text|
    ensures var t', e := AddVersion(t, version, edits, writer), edits[0];
            && t'.nexts != []
            && t'.nexts[|t'.nexts| - 1] == Node(Some(version), e.sortKey, e.insert, false, {}, [], None)
  {
  }

  /** An edit cuts the root at most once: what is cut off takes everything below along and keeps
      the deletions and the end cap.  The root itself is capped only by a replacement. */
  lemma EditCutsOnce(t: Tree, version: Version, edits: seq<Edit>, writer: View)
    ensures var t' := AddVersion(t, version, edits, writer);
            if t'.next == t.next then t'.text == t.text && t'.endCap == t.endCap && t.nexts <= t'.nexts
            else
              && t'.next.Some? && t'.text <= t.text
              && t'.next.value == Node(None, None, t.text[|t'.text|..], t.endCap, t.deletedBy, t.nexts, t.next)
              && (t'.endCap <==> edits[0].deleteCount > 0 && edits[0].insert != "")
    ensures var t' := AddVersion(t, version, edits, writer);
            t'.version == t.version && t'.sortKey == t.sortKey && t.deletedBy <= t'.deletedBy <= t.deletedBy + {version}
  {
    var t' := AddVersion(t, version, edits, writer);
    if t'.next.Some? && t'.next != t.next { assert t'.text + t'.next.value.text == t.text; }
  }

  // ---------- one edit after another ----------

  /** What a second pure insert does, by where it is: at or before a limit it is spliced in, for the
      views that count it, behind the limit nobody sees it. */
  ghost predicate InsertsUpTo(t: Tree, limit: nat, version: Version, edits: seq<Edit>, writer: View, reader: View)
    requires edits != []
  {
    var e := edits[0];
    var before, after := Content(t, reader), Content(AddVersion(t, version, edits, writer), reader);
    var at := if IsDeleted(t, reader) then 0 else e.pos;
    if e.pos < limit && reader(version) then at <= |before| && after == Splice(before, at, e.insert)
    else after == before
  }

  /** After a pure insert has landed, another one lands only in front of it. */
  lemma InsertAfterInsert(t: Tree, v: Version, first: seq<Edit>, v2: Version, second: seq<Edit>, writer: View,
                          writer2: View, reader: View)
    requires first != [] && first[0].deleteCount == 0 && !IsDeleted(t, writer) && InsertLands(t, first[0].pos)
    requires second != [] && second[0].deleteCount == 0 && !IsDeleted(t, writer2)
    ensures IsDeleted(AddVersion(t, v, first, writer), reader) <==> IsDeleted(t, reader)
    ensures InsertsUpTo(AddVersion(t, v, first, writer), first[0].pos, v2, second, writer2, reader)
  {
    var t1 := AddVersion(t, v, first, writer);
    assert IsDeleted(t1, writer2) == IsDeleted(t, writer2);
    assert IsDeleted(t1, reader) == IsDeleted(t, reader);
    InsertIsSplice(t1, v2, second, writer2, reader);
  }

  /** After a replacement one lands in front of it or at the same place. */
  lemma InsertAfterReplacement(t: Tree, v: Version, first: seq<Edit>, v2: Version, second: seq<Edit>, writer: View,
                               writer2: View, reader: View)
    requires first != [] && first[0].deleteCount > 0 && first[0].insert != "" && !IsDeleted(t, writer)
    requires first[0].pos < |t.text|
    requires second != [] && second[0].deleteCount == 0 && !IsDeleted(t, writer2)
    ensures IsDeleted(AddVersion(t, v, first, writer), reader) <==> IsDeleted(t, reader)
    ensures InsertsUpTo(AddVersion(t, v, first, writer), first[0].pos + 1, v2, second, writer2, reader)
  {
    var t1 := AddVersion(t, v, first, writer);
    assert IsDeleted(t1, writer2) == IsDeleted(t, writer2);
    assert IsDeleted(t1, reader) == IsDeleted(t, reader);
    InsertIsSplice(t1, v2, second, writer2, reader);
  }

  /** So it does after a deletion that removed nothing. */
  lemma InsertAfterLostDeletion(t: Tree, v: Version, first: seq<Edit>, v2: Version, second: seq<Edit>, writer: View,
                                writer2: View, reader: View)
    requires first != [] && first[0].deleteCount > 0 && first[0].insert == "" && !IsDeleted(t, writer)
    requires 0 < first[0].pos < |t.text|
    requires second != [] && second[0].deleteCount == 0 && !IsDeleted(t, writer2)
    ensures IsDeleted(AddVersion(t, v, first, writer), reader) <==> IsDeleted(t, reader)
    ensures InsertsUpTo(AddVersion(t, v, first, writer), first[0].pos + 1, v2, second, writer2, reader)
  {
    var t1 := AddVersion(t, v, first, writer);
    assert IsDeleted(t1, writer2) == IsDeleted(t, writer2);
    assert IsDeleted(t1, reader) == IsDeleted(t, reader);
    InsertIsSplice(t1, v2, second, writer2, reader);
  }

  /** After a deletion at the front a writer who counts it can insert at the front only; the text
      then stands where the deleted text stood, behind it for those who still see that. */
  lemma InsertAfterFrontDeletion(t: Tree, v: Version, first: seq<Edit>, v2: Version, second: seq<Edit>, writer: View,
                                 writer2: View, reader: View)
    requires first != [] && 0 < first[0].deleteCount < |t.text| && first[0].insert == "" && first[0].pos == 0
    requires !IsDeleted(t, writer) && writer2(v) && second != [] && second[0].deleteCount == 0
    ensures var t1, e := AddVersion(t, v, first, writer), second[0];
            var before, after := Content(t1, reader), Content(AddVersion(t1, v2, second, writer2), reader);
            var at := if IsDeleted(t, reader) || reader(v) then 0 else first[0].deleteCount;
            if e.pos == 0 && reader(v2) then at <= |before| && after == Splice(before, at, e.insert)
            else after == before
  {
    var t1 := AddVersion(t, v, first, writer);
    assert v in t1.deletedBy && t1.nexts == [] && t1.text == t.text[..first[0].deleteCount];
    assert IsDeleted(t1, writer2);
    assert IsDeleted(t1, reader) <==> IsDeleted(t, reader) || reader(v) by {
      if IsDeleted(t, reader) {
        var d :| d in t.deletedBy && reader(d);
        assert d in t1.deletedBy;
      }
    }
    InsertAtDeletedRoot(t1, v2, second, writer2, reader);
    Associate(Own(t1, reader), "", "");
  }

  // ---------- compression: renaming ----------

  function RenamedSet(b: Bubbles, s: set<Version>): set<Version> {
    set v | v in s :: Renamed(b, v)
  }

  /** The loop over `deleted_by`: each renamed version is taken out and its new name put in,
      in whatever order the table yields them. */
  function RenameInOrder(b: Bubbles, order: seq<Version>, s: set<Version>): set<Version> {
    if order == [] then s
    else
      var r := RenameInOrder(b, order[..|order| - 1], s);
      var v := order[|order| - 1];
      if v in b then r - {v} + {b[v].0} else r
  }

  lemma RenameOne(b: Bubbles, s: set<Version>, done: set<Version>, v: Version)
    requires NamesSettled(b) && done <= s && v in s && v !in done
    ensures var r := RenamedSet(b, done) + (s - done);
            (if v in b then r - {v} + {b[v].0} else r) == RenamedSet(b, done + {v}) + (s - (done + {v}))
  {
    assert RenamedSet(b, done + {v}) == RenamedSet(b, done) + {Renamed(b, v)};
    if v in RenamedSet(b, done) {
      var u :| u in done && Renamed(b, u) == v;
      assert Renamed(b, v) == v;
    }
  }

  lemma {:induction false} RenameAnyOrder(b: Bubbles, order: seq<Version>, s: set<Version>, done: set<Version>)
    requires NamesSettled(b) && Members(order) == done && done <= s
    requires forall i, j :: 0 <= i < j < |order| ==> order[i] != order[j]
    ensures RenameInOrder(b, order, s) == RenamedSet(b, done) + (s - done)
  {
    if order != [] {
      var w, v := order[..|order| - 1], order[|order| - 1];
      assert order == w + [v];
      var before := Members(w);
      assert done == before + {v} && v !in before;
      RenameAnyOrder(b, w, s, before);
      RenameOne(b, s, before, v);
    }
  }

  /** With settled names the order does not matter: the loop renames the whole set. */
  lemma RenameLoop(b: Bubbles, order: seq<Version>, s: set<Version>)
    requires NamesSettled(b) && Members(order) == s
    requires forall i, j :: 0 <= i < j < |order| ==> order[i] != order[j]
    ensures RenameInOrder(b, order, s) == RenamedSet(b, s)
  {
    RenameAnyOrder(b, order, s, s);
  }

  /** With chained names it does: one order forgets a deletion that another keeps. */
  lemma ChainedNamesDependOnOrder(x: Version, y: Version, z: Version)
    requires x != y && y != z && x != z
    ensures var b: Bubbles := map[x := (y, y), y := (z, z)];
            && RenameInOrder(b, [x, y], {x, y}) == {z}
            && RenameInOrder(b, [y, x], {x, y}) == {y, z}
  {
    var b: Bubbles := map[x := (y, y), y := (z, z)];
    assert [x, y][..1] == [x] && [y, x][..1] == [y] && [x][..0] == [] && [y][..0] == [];
    assert RenameInOrder(b, [x], {x, y}) == {y};
    assert RenameInOrder(b, [y], {x, y}) == {x, z};
  }

  /** The loop over this order ends with the whole set renamed. */
  ghost predicate RenamesAll(b: Bubbles, order: seq<Version>) {
    RenameInOrder(b, order, Members(order)) == RenamedSet(b, Members(order))
  }

  lemma ChainForgets(b: Bubbles, v: Version)
    requires v in b && Renamed(b, b[v].0) != b[v].0
    ensures v != b[v].0 && !RenamesAll(b, [v, b[v].0])
  {
    var w := b[v].0;
    assert [v, w][..1] == [v] && [v][..0] == [];
    assert Members([v, w]) == {v, w};
    assert RenameInOrder(b, [v], {v, w}) == {w};
    assert RenameInOrder(b, [v, w], {v, w}) == {b[w].0};
    assert Renamed(b, v) in RenamedSet(b, {v, w});
  }

  /** Settled names are exactly what the loop needs to rename every set in every order. */
  lemma SettledIffLoopRenames(b: Bubbles)
    ensures NamesSettled(b) <==>
            forall order :: (forall i, j :: 0 <= i < j < |order| ==> order[i] != order[j]) ==> RenamesAll(b, order)
  {
    if NamesSettled(b) {
      forall order | forall i, j :: 0 <= i < j < |order| ==> order[i] != order[j] ensures RenamesAll(b, order) {
        RenameLoop(b, order, Members(order));
      }
    } else {
      var v :| v in b && Renamed(b, b[v].0) != b[v].0;
      ChainForgets(b, v);
    }
  }

  /** The renaming pass over a tree. */
  function RenameTree(t: Tree, b: Bubbles): Tree
    decreases t, 0
  {
    var renamed := t.version.Some? && Renamed(b, t.version.value) != t.version.value;
    Node(if renamed then Some(Renamed(b, t.version.value)) else t.version,
         if renamed && t.sortKey.None? then t.version else t.sortKey,
         t.text, t.endCap, RenamedSet(b, t.deletedBy), RenameTrees(t.nexts, b),
         if t.next.None? then None else Some(RenameTree(t.next.value, b)))
  }

  function RenameTrees(ts: seq<Tree>, b: Bubbles): (r: seq<Tree>)
    ensures |r| == |ts| && forall i :: 0 <= i < |ts| ==> r[i] == RenameTree(ts[i], b)
    decreases ts, 0
  {
    if ts == [] then [] else [RenameTree(ts[0], b)] + RenameTrees(ts[1..], b)
  }

  /** What a node is sorted by: its sort key, or else its version. */
  function EffectiveSortKey(t: Tree): Option<Version> {
    if t.sortKey.Some? then t.sortKey else t.version
  }

  /** A renamed node keeps its place, and moves only if it gets another name. */
  lemma RenamingKeepsPlace(t: Tree, b: Bubbles)
    ensures EffectiveSortKey(RenameTree(t, b)) == EffectiveSortKey(t)
    ensures t.version.None? || Renamed(b, t.version.value) == t.version.value ==>
              RenameTree(t, b).version == t.version && RenameTree(t, b).sortKey == t.sortKey
  {
  }

  /** A possible outcome of the loop over `deleted_by`. */
  ghost predicate LoopResult(b: Bubbles, s: set<Version>, r: set<Version>) {
    exists order :: Members(order) == s && (forall i, j :: 0 <= i < j < |order| ==> order[i] != order[j])
                    && r == RenameInOrder(b, order, s)
  }

  /** A possible outcome of the renaming pass: with names that are not settled there are several. */
  ghost predicate RenamedTo(t: Tree, b: Bubbles, r: Tree)
    decreases t, 1
  {
    && r.version == RenameTree(t, b).version && r.sortKey == RenameTree(t, b).sortKey
    && r.text == t.text && r.endCap == t.endCap && LoopResult(b, t.deletedBy, r.deletedBy)
    && RenamedBelow(t, b, r)
  }

  ghost predicate RenamedBelow(t: Tree, b: Bubbles, r: Tree)
    decreases t, 0
  {
    && |r.nexts| == |t.nexts| && (forall i :: 0 <= i < |t.nexts| ==> RenamedTo(t.nexts[i], b, r.nexts[i]))
    && (r.next == None <==> t.next == None)
    && (t.next.Some? ==> RenamedTo(t.next.value, b, r.next.value))
  }

  /** With settled names there is only one. */
  lemma {:induction false} SettledRenaming(t: Tree, b: Bubbles, r: Tree)
    requires NamesSettled(b) && RenamedTo(t, b, r)
    ensures r == RenameTree(t, b)
    decreases t
  {
    var order :| Members(order) == t.deletedBy && (forall i, j :: 0 <= i < j < |order| ==> order[i] != order[j])
                 && r.deletedBy == RenameInOrder(b, order, t.deletedBy);
    RenameLoop(b, order, t.deletedBy);
    forall i | 0 <= i < |t.nexts|
      ensures r.nexts[i] == RenameTree(t.nexts[i], b)
    {
      SettledRenaming(t.nexts[i], b, r.nexts[i]);
    }
    assert r.nexts == RenameTrees(t.nexts, b);
    if t.next.Some? { SettledRenaming(t.next.value, b, r.next.value); }
  }

  /** A view of the old names and a view of the new ones that say the same. */
  ghost predicate Agree(b: Bubbles, old_: View, new_: View) {
    forall v :: old_(v) <==> new_(Renamed(b, v))
  }

  lemma DeletedAlike(t: Tree, b: Bubbles, old_: View, new_: View)
    requires Agree(b, old_, new_)
    ensures IsDeleted(RenameTree(t, b), new_) == IsDeleted(t, old_)
    ensures IsShown(RenameTree(t, b), new_) == IsShown(t, old_)
  {
    var r := RenameTree(t, b);
    if IsDeleted(t, old_) {
      var v :| v in t.deletedBy && old_(v);
      assert Renamed(b, v) in r.deletedBy;
    }
    if IsDeleted(r, new_) {
      var w :| w in r.deletedBy && new_(w);
      var v :| v in t.deletedBy && Renamed(b, v) == w;
    }
  }

  lemma {:induction false} RenameKeepsContent(t: Tree, b: Bubbles, old_: View, new_: View)
    requires Agree(b, old_, new_)
    ensures Content(RenameTree(t, b), new_) == Content(t, old_)
    decreases t, 0
  {
    DeletedAlike(t, b, old_, new_);
    RenameKeepsBranches(t.nexts, b, old_, new_);
    if t.next.Some? { RenameKeepsContent(t.next.value, b, old_, new_); }
  }

  lemma {:induction false} RenameKeepsBranches(ts: seq<Tree>, b: Bubbles, old_: View, new_: View)
    requires Agree(b, old_, new_)
    ensures Branches(RenameTrees(ts, b), new_) == Branches(ts, old_)
    decreases ts, 0
  {
    if ts != [] {
      DeletedAlike(ts[0], b, old_, new_);
      RenameKeepsContent(ts[0], b, old_, new_);
      RenameKeepsBranches(ts[1..], b, old_, new_);
      assert RenameTrees(ts, b)[1..] == RenameTrees(ts[1..], b);
    }
  }

  // ---------- compression: merging ----------

  predicate AllOwnVersion(t: Tree) {
    t.nexts != [] && forall i | 0 <= i < |t.nexts| :: t.nexts[i].version == t.version
  }

  /** Branches that all carry the node's own version are dropped, text and all. */
  function DropOwnBranches(t: Tree): Tree {
    if AllOwnVersion(t) then t.(nexts := []) else t
  }

  predicate CanAbsorb(t: Tree) {
    t.next.Some? && t.nexts == [] && t.text != "" && t.next.value.text != "" && t.deletedBy == t.next.value.deletedBy
  }

  function AbsorbOne(t: Tree): Tree
    requires CanAbsorb(t)
  {
    var n := t.next.value;
    t.(text := t.text + n.text, endCap := n.endCap, nexts := n.nexts, next := n.next)
  }

  /** The loop that joins a node with its continuation. */
  function Absorb(t: Tree): Tree
    decreases t.next
  {
    if CanAbsorb(t) then Absorb(AbsorbOne(t)) else t
  }

  function Size(t: Tree): (n: nat)
    ensures n > 0
    decreases t, 0
  {
    1 + Sizes(t.nexts) + if t.next.None? then 0 else Size(t.next.value)
  }

  function Sizes(ts: seq<Tree>): nat
    decreases ts, 0
  {
    if ts == [] then 0 else Size(ts[0]) + Sizes(ts[1..])
  }

  lemma {:induction false} AbsorbShrinks(t: Tree)
    ensures Size(Absorb(t)) <= Size(t)
    decreases t.next
  {
    if CanAbsorb(t) { AbsorbShrinks(AbsorbOne(t)); }
  }

  /** What `merge_nodes` does to the node itself, before its children. */
  function MergeSelf(t: Tree): Tree {
    Absorb(DropOwnBranches(t))
  }

  lemma MergeSelfShrinks(t: Tree)
    ensures Size(MergeSelf(t)) <= Size(t)
  {
    AbsorbShrinks(DropOwnBranches(t));
  }

  function Merge(t: Tree): Tree
    decreases Size(t), 1
  {
    MergeSelfShrinks(t);
    var u := MergeSelf(t);
    u.(nexts := MergeAll(u.nexts), next := if u.next.None? then None else Some(Merge(u.next.value)))
  }

  function MergeAll(ts: seq<Tree>): seq<Tree>
    decreases Sizes(ts) + 1, 0
  {
    if ts == [] then [] else [Merge(ts[0])] + MergeAll(ts[1..])
  }

  lemma {:induction false} MergeAllAt(ts: seq<Tree>)
    ensures |MergeAll(ts)| == |ts| && forall i :: 0 <= i < |ts| ==> MergeAll(ts)[i] == Merge(ts[i])
  {
    if ts != [] { MergeAllAt(ts[1..]); }
  }

  /** `apply_bubbles`: rename everywhere, then merge. */
  function ApplyBubbles(t: Tree, b: Bubbles): Tree {
    Merge(RenameTree(t, b))
  }

  // ---------- merging keeps the text ----------

  /** At every node with branches one of them carries another version than the node. */
  predicate BranchesDiffer(t: Tree)
    decreases t, 0
  {
    && (t.nexts == [] || exists i | 0 <= i < |t.nexts| :: t.nexts[i].version != t.version)
    && (forall i | 0 <= i < |t.nexts| :: BranchesDiffer(t.nexts[i]))
    && (t.next.Some? ==> BranchesDiffer(t.next.value))
  }

  /** The same at every node below this one. */
  predicate BranchesDifferBelow(t: Tree) {
    && (forall i | 0 <= i < |t.nexts| :: BranchesDiffer(t.nexts[i]))
    && (t.next.Some? ==> BranchesDiffer(t.next.value))
  }

  /** What absorbing leaves as it was. */
  ghost predicate SameHead(t: Tree, u: Tree) {
    && u.version == t.version && u.sortKey == t.sortKey && u.deletedBy == t.deletedBy
    && (u.text == "" <==> t.text == "")
  }

  lemma AbsorbOneKeepsText(t: Tree, view: View)
    requires CanAbsorb(t)
    ensures Content(AbsorbOne(t), view) == Content(t, view)
  {
    var n := t.next.value;
    assert IsDeleted(n, view) == IsDeleted(t, view) == IsDeleted(AbsorbOne(t), view);
    assert Own(AbsorbOne(t), view) == Own(t, view) + Own(n, view);
    assert Branches(t.nexts, view) == "" && Rest(t.next, view) == Content(n, view);
    Associate(Own(t, view), Content(n, view), "");
    Associate(Own(t, view), Own(n, view), Branches(n.nexts, view));
    Associate(Own(t, view), Own(n, view) + Branches(n.nexts, view), Rest(n.next, view));
  }

  lemma {:induction false} AbsorbKeepsText(t: Tree, view: View)
    ensures Content(Absorb(t), view) == Content(t, view)
    decreases t.next
  {
    if CanAbsorb(t) {
      AbsorbOneKeepsText(t, view);
      AbsorbKeepsText(AbsorbOne(t), view);
    }
  }

  lemma {:induction false} AbsorbEnds(t: Tree)
    ensures !CanAbsorb(Absorb(t)) && SameHead(t, Absorb(t))
    ensures BranchesDifferBelow(t) ==> BranchesDifferBelow(Absorb(t))
    decreases t.next
  {
    if CanAbsorb(t) { AbsorbEnds(AbsorbOne(t)); }
  }

  /** No branches that the view shows are dropped anywhere in the merging: wherever, node joined
      with continuation, all branches carry the node's own version, the view shows none of them. */
  predicate LosesNothing(t: Tree, view: View)
    decreases Size(t), 1
  {
    var dropped := t.nexts != [] && forall i | 0 <= i < |t.nexts| :: t.nexts[i].version == t.version;
    AbsorbShrinks(if dropped then t.(nexts := []) else t);
    var u := Absorb(if dropped then t.(nexts := []) else t);
    && (dropped ==> Branches(t.nexts, view) == "")
    && BranchesLoseNothing(u.nexts, view)
    && (u.next.Some? ==> LosesNothing(u.next.value, view))
  }

  predicate BranchesLoseNothing(ts: seq<Tree>, view: View)
    decreases Sizes(ts) + 1, 0
  {
    ts != [] ==> (IsShown(ts[0], view) ==> LosesNothing(ts[0], view)) && BranchesLoseNothing(ts[1..], view)
  }

  /** The same text, or, if something is lost, a shorter one. */
  ghost predicate SameOrShorter(same: bool, before: string, after: string) {
    if same then after == before else |after| < |before|
  }

  lemma DropLoses(t: Tree, view: View)
    ensures SameOrShorter(AllOwnVersion(t) ==> Branches(t.nexts, view) == "",
                          Content(t, view), Content(DropOwnBranches(t), view))
  {
    assert IsDeleted(DropOwnBranches(t), view) == IsDeleted(t, view);
  }

  lemma {:induction false} MergeLoses(t: Tree, view: View)
    ensures SameOrShorter(LosesNothing(t, view), Content(t, view), Content(Merge(t), view)) &&
            Merge(t).version == t.version
    decreases Size(t), 1
  {
    MergeSelfShrinks(t);
    var u, m := MergeSelf(t), Merge(t);
    DropLoses(t, view);
    AbsorbKeepsText(DropOwnBranches(t), view);
    AbsorbEnds(DropOwnBranches(t));
    MergeBranchesLose(u.nexts, view);
    if u.next.Some? { MergeLoses(u.next.value, view); }
    assert IsDeleted(m, view) == IsDeleted(u, view);
  }

  lemma {:induction false} MergeBranchesLose(ts: seq<Tree>, view: View)
    ensures SameOrShorter(BranchesLoseNothing(ts, view), Branches(ts, view), Branches(MergeAll(ts), view))
    decreases Sizes(ts) + 1, 0
  {
    if ts != [] {
      MergeLoses(ts[0], view);
      MergeBranchesLose(ts[1..], view);
      assert MergeAll(ts)[1..] == MergeAll(ts[1..]);
    }
  }

  lemma {:induction false} DifferingLosesNothing(t: Tree, view: View)
    requires BranchesDiffer(t)
    ensures LosesNothing(t, view)
    decreases Size(t), 1
  {
    MergeSelfShrinks(t);
    var u := MergeSelf(t);
    AbsorbEnds(t);
    DifferingBranchesLoseNothing(u.nexts, view);
    if u.next.Some? { DifferingLosesNothing(u.next.value, view); }
  }

  lemma {:induction false} DifferingBranchesLoseNothing(ts: seq<Tree>, view: View)
    requires forall i :: 0 <= i < |ts| ==> BranchesDiffer(ts[i])
    ensures BranchesLoseNothing(ts, view)
    decreases Sizes(ts) + 1, 0
  {
    if ts != [] {
      DifferingLosesNothing(ts[0], view);
      DifferingBranchesLoseNothing(ts[1..], view);
    }
  }

  /** Compression preserves text exactly when the merging drops no branch that is shown: under
      views that agree through the renaming the tree then reads the same, else shorter. */
  lemma CompressionIsExact(t: Tree, b: Bubbles, old_: View, new_: View)
    requires Agree(b, old_, new_)
    ensures Content(ApplyBubbles(t, b), new_) == Content(t, old_) <==> LosesNothing(RenameTree(t, b), new_)
    ensures |Content(ApplyBubbles(t, b), new_)| <= |Content(t, old_)|
  {
    RenameKeepsContent(t, b, old_, new_);
    MergeLoses(RenameTree(t, b), new_);
  }

  /** In particular it does whenever at every renamed node with branches one of them carries
      another version. */
  lemma CompressionKeepsText(t: Tree, b: Bubbles, old_: View, new_: View)
    requires Agree(b, old_, new_) && BranchesDiffer(RenameTree(t, b))
    ensures Content(ApplyBubbles(t, b), new_) == Content(t, old_)
  {
    CompressionIsExact(t, b, old_, new_);
    DifferingLosesNothing(RenameTree(t, b), new_);
  }

  /** Nothing that could be joined is left apart. */
  predicate FullyMerged(t: Tree)
    decreases t, 0
  {
    && (t.next.Some? && t.nexts == [] && t.text != "" && t.next.value.text != "" ==>
          t.deletedBy != t.next.value.deletedBy)
    && (forall i | 0 <= i < |t.nexts| :: FullyMerged(t.nexts[i]))
    && (t.next.Some? ==> FullyMerged(t.next.value))
  }

  lemma {:induction false} MergeIsComplete(t: Tree)
    ensures FullyMerged(Merge(t)) && SameHead(t, Merge(t))
    decreases Size(t), 1
  {
    MergeSelfShrinks(t);
    AbsorbEnds(DropOwnBranches(t));
    var u := MergeSelf(t);
    MergeAllComplete(u.nexts);
    MergeAllAt(u.nexts);
    if u.next.Some? { MergeIsComplete(u.next.value); }
  }

  lemma {:induction false} MergeAllComplete(ts: seq<Tree>)
    ensures forall i :: 0 <= i < |MergeAll(ts)| ==> FullyMerged(MergeAll(ts)[i])
    decreases Sizes(ts) + 1, 0
  {
    if ts != [] {
      MergeIsComplete(ts[0]);
      MergeAllComplete(ts[1..]);
    }
  }

  /** Only text is joined, and only under the same deletions: a node that has none, or whose
      continuation has none, or other deletions, or a branch of another version between the two,
      stays as long as it was and keeps its continuation. */
  lemma OnlyTextIsJoined(t: Tree)
    requires t.next.Some?
    requires || t.text == "" || t.next.value.text == "" || t.deletedBy != t.next.value.deletedBy
             || exists i :: 0 <= i < |t.nexts| && t.nexts[i].version != t.version
    ensures Merge(t).text == t.text && Merge(t).endCap == t.endCap && Merge(t).next == Some(Merge(t.next.value))
  {
    MergeSelfShrinks(t);
  }

  /** Joining a node with what a plain break cut off gives the node back. */
  lemma JoinUndoesBreak(t: Tree, x: nat, endCap: bool)
    requires 0 < x < |t.text|
    ensures CanAbsorb(Broken(t, x, endCap, None)) && AbsorbOne(Broken(t, x, endCap, None)) == t
  {
    assert t.text[..x] + t.text[x..] == t.text;
  }

  /** Without that proviso text is lost: a word appended to a one-node text, both versions
      then pruned into one, is gone for every reader. */
  lemma CompressionCanLoseText(w: Version, v: Version, text: string, word: string, view: View)
    requires w != v && view(w) && view(v) && word != ""
    ensures var t := AddVersion(Node(Some(w), None, text, false, {}, [], None), v, [Edit(|text|, 0, word, None)], view);
            var b: Bubbles := map[v := (v, w), w := (v, w)];
            && Content(t, view) == text + word
            && Agree(b, view, view) && NamesSettled(b)
            && Content(ApplyBubbles(t, b), view) == text
  {
    var root := Node(Some(w), None, text, false, {}, [], None);
    var e := Edit(|text|, 0, word, None);
    var t := AddVersion(root, v, [e], view);
    var leaf := NewLeaf(v, e);
    var b: Bubbles := map[v := (v, w), w := (v, w)];
    assert t == PushBranch(root, leaf) && t.nexts == [leaf];
    LeafContent(v, e, view);
    OneBranch(leaf, view);
    Associate(text + word, "", "");
    var r := RenameTree(t, b);
    assert r.nexts[0].version == Some(v) && r.version == Some(v) && |r.nexts| == 1;
    assert AllOwnVersion(r);
    assert r.deletedBy == {};
    var m := Merge(r);
    assert r.next == None && MergeSelf(r) == r.(nexts := []);
    MergeAllAt([]);
    assert m.nexts == [] && m.next == None && m.text == text;
    Associate(text, "", "");
  }
}
