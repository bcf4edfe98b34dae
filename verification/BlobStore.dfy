/** The blob store: a put takes effect only if its version is newer, so the greatest version
    wins whatever the order. */
module BlobStore {
  import opened Text
  import opened Filename

  // ---------- comparing versions ----------

  /** Rust's order on strings: lexicographic. */
  predicate Less(a: string, b: string) {
    b != "" && (a == "" || a[0] < b[0] || (a[0] == b[0] && Less(a[1..], b[1..])))
  }

  function CompareText(a: string, b: string): int {
    if Less(a, b) then -1 else if Less(b, a) then 1 else 0
  }

  /** What follows the last hyphen. */
  function EventSeq(e: string): string {
    if e == "" || e[|e| - 1] == '-' then ""
    else EventSeq(e[..|e| - 1]) + [e[|e| - 1]]
  }

  function CompareSeqs(a: string, b: string): int {
    if |a| != |b| then |a| - |b| else CompareText(a, b)
  }

  function CompareVersions(a: string, b: string): int {
    var c := CompareSeqs(EventSeq(a), EventSeq(b));
    if c != 0 then c else CompareText(a, b)
  }

  lemma {:induction false} LessIsStrict(a: string, b: string)
    ensures !(Less(a, b) && Less(b, a))
    ensures !Less(a, b) && !Less(b, a) <==> a == b
    decreases |a|
  {
    if a != "" && b != "" {
      LessIsStrict(a[1..], b[1..]);
      assert a == [a[0]] + a[1..] && b == [b[0]] + b[1..];
    }
  }

  lemma {:induction false} LessIsTransitive(a: string, b: string, c: string)
    requires Less(a, b) && Less(b, c)
    ensures Less(a, c)
    decreases |a|
  {
    if a != "" && a[0] == b[0] && b[0] == c[0] { LessIsTransitive(a[1..], b[1..], c[1..]); }
  }

  lemma TextOrder(a: string, b: string, c: string)
    ensures CompareText(a, b) == -CompareText(b, a)
    ensures CompareText(a, b) == 0 <==> a == b
    ensures CompareText(a, b) <= 0 && CompareText(b, c) <= 0 ==> CompareText(a, c) <= 0
  {
    LessIsStrict(a, b);
    LessIsStrict(b, c);
    LessIsStrict(a, c);
    if Less(a, b) && Less(b, c) { LessIsTransitive(a, b, c); }
  }

  lemma SeqOrder(a: string, b: string, c: string)
    ensures CompareSeqs(a, b) == -CompareSeqs(b, a)
    ensures CompareSeqs(a, b) == 0 <==> a == b
    ensures CompareSeqs(a, b) <= 0 && CompareSeqs(b, c) <= 0 ==> CompareSeqs(a, c) <= 0
  {
    TextOrder(a, b, c);
    TextOrder(b, a, c);
  }

  /** Versions are totally ordered, and only equal ones compare as equal. */
  lemma VersionsAreOrdered(a: string, b: string, c: string)
    ensures CompareVersions(a, b) == -CompareVersions(b, a)
    ensures CompareVersions(a, b) == 0 <==> a == b
    ensures CompareVersions(a, b) <= 0 && CompareVersions(b, c) <= 0 ==> CompareVersions(a, c) <= 0
  {
    SeqOrder(EventSeq(a), EventSeq(b), EventSeq(c));
    SeqOrder(EventSeq(b), EventSeq(c), EventSeq(a));
    TextOrder(a, b, c);
    TextOrder(b, c, a);
  }

  // ---------- what newer means ----------

  /** Text `a` comes before `b`: it stops first, or has the smaller character, where they part. */
  ghost predicate Precedes(a: string, b: string) {
    exists i: nat :: i <= |a| && i < |b| && a[..i] == b[..i] && (i == |a| || a[i] < b[i])
  }

  lemma {:induction false} LessIsPrecedes(a: string, b: string)
    ensures Less(a, b) <==> Precedes(a, b)
    decreases |a|
  {
    if a == "" {
      assert b != "" ==> a[..0] == b[..0];
    } else if b != "" {
      forall i: nat | 0 < i <= |a| && i <= |b| && a[..i] == b[..i] ensures a[0] == b[0] {
        assert a[..i][0] == b[..i][0];
      }
      if a[0] < b[0] {
        assert a[..0] == b[..0];
      } else if a[0] == b[0] {
        LessIsPrecedes(a[1..], b[1..]);
        if Precedes(a[1..], b[1..]) {
          var i: nat :| i <= |a[1..]| && i < |b[1..]| && a[1..][..i] == b[1..][..i]
                        && (i == |a[1..]| || a[1..][i] < b[1..][i]);
          assert a[..i + 1] == [a[0]] + a[1..][..i] && b[..i + 1] == [b[0]] + b[1..][..i];
        }
        if Precedes(a, b) {
          var i: nat :| i <= |a| && i < |b| && a[..i] == b[..i] && (i == |a| || a[i] < b[i]);
          assert a[1..][..i - 1] == a[..i][1..] && b[1..][..i - 1] == b[..i][1..];
        }
      }
    }
  }

  lemma {:induction false} SeqAfterHyphen(writer: string, x: string)
    requires '-' !in x
    ensures EventSeq(writer + "-" + x) == x && EventSeq(x) == x
    decreases |x|
  {
    var e := writer + "-" + x;
    if x != "" {
      var w := x[..|x| - 1];
      SeqAfterHyphen(writer, w);
      assert e[..|e| - 1] == writer + "-" + w && e[|e| - 1] == x[|x| - 1];
      assert x == w + [x[|x| - 1]];
    }
  }

  /** What follows the last hyphen decides: the longer is the newer, then the later text, and
      between equal ones the whole versions. */
  lemma SuffixDecides(a: string, x: string, b: string, y: string)
    requires '-' !in x && '-' !in y
    ensures CompareVersions(a + "-" + x, b + "-" + y) < 0 <==>
            || |x| < |y|
            || (|x| == |y| && Precedes(x, y))
            || (x == y && Precedes(a + "-" + x, b + "-" + y))
  {
    SeqAfterHyphen(a, x);
    SeqAfterHyphen(b, y);
    LessIsPrecedes(x, y);
    LessIsPrecedes(y, x);
    LessIsPrecedes(a + "-" + x, b + "-" + y);
    TextOrder(x, y, x);
    TextOrder(a + "-" + x, b + "-" + y, "");
  }

  lemma {:induction false} PrecedesAppend(a: string, b: string, x: char, y: char)
    requires |a| == |b| && (Precedes(a, b) || (a == b && x < y))
    ensures Precedes(a + [x], b + [y])
  {
    if Precedes(a, b) {
      var i: nat :| i <= |a| && i < |b| && a[..i] == b[..i] && (i == |a| || a[i] < b[i]);
      assert (a + [x])[..i] == a[..i] && (b + [y])[..i] == b[..i];
    } else {
      assert (a + [x])[..|a|] == a && (b + [y])[..|a|] == b;
    }
  }

  /** Smaller numbers print shorter, or earlier at the same length. */
  lemma {:induction false} DecimalOrder(m: nat, n: nat)
    requires m < n
    ensures |Decimal(m)| < |Decimal(n)| || (|Decimal(m)| == |Decimal(n)| && Precedes(Decimal(m), Decimal(n)))
  {
    if n < 10 {
      PrecedesAppend("", "", DigitChar(m), DigitChar(n));
      assert "" + [DigitChar(m)] == Decimal(m) && "" + [DigitChar(n)] == Decimal(n);
    } else if m >= 10 {
      if m / 10 < n / 10 { DecimalOrder(m / 10, n / 10); }
      if |Decimal(m / 10)| == |Decimal(n / 10)| {
        PrecedesAppend(Decimal(m / 10), Decimal(n / 10), DigitChar(m % 10), DigitChar(n % 10));
      }
    }
  }

  /** Numbered versions: the greater number is the newer version, whoever wrote it, and under
      the same number the later text. */
  lemma NewerIsGreaterNumber(a: string, m: nat, b: string, n: nat)
    ensures CompareVersions(a + "-" + Decimal(m), b + "-" + Decimal(n)) < 0 <==>
            m < n || (m == n && Precedes(a + "-" + Decimal(m), b + "-" + Decimal(n)))
  {
    var x, y := Decimal(m), Decimal(n);
    DecimalHasNoHyphen(m);
    DecimalHasNoHyphen(n);
    SuffixDecides(a, x, b, y);
    if m < n { DecimalOrder(m, n); }
    if n < m {
      DecimalOrder(n, m);
      LessIsPrecedes(x, y);
      LessIsPrecedes(y, x);
      LessIsStrict(x, y);
    }
    if m == n {
      LessIsPrecedes(x, x);
      LessIsStrict(x, x);
    }
  }

  // ---------- the store ----------

  datatype BlobMetadata = BlobMetadata(key: string, version: seq<string>, contentType: Option<string>,
                                       parents: seq<string>,
                                       contentHash: string, size: nat)

  datatype StoreEvent =
    | PutEvent(meta: BlobMetadata, data: string)
    | DeleteEvent(key: string, version: seq<string>, contentType: Option<string>)

  /** One call of `put`. */
  datatype PutCall = PutCall(key: string, data: string, version: seq<string>, parents: seq<string>,
                             contentType: Option<string>)

  /** What the store is built on and this model does not look into: the Unicode tables and
      the content hash. */
  datatype Platform = Platform(tables: Tables, sha256: string -> string)

  /** Metadata by key, files by name, and everything told to subscribers. */
  datatype Store = Store(meta: map<string, BlobMetadata>, files: map<string, string>, events: seq<StoreEvent>)

  function First(version: seq<string>): string {
    if version == [] then "" else version[0]
  }

  function MetaOf(f: Platform, p: PutCall): BlobMetadata {
    BlobMetadata(p.key, p.version, p.contentType, p.parents, f.sha256(p.data), |p.data|)
  }

  function FileOf(f: Platform, key: string): string {
    EncodeFilename(f.tables, key)
  }

  predicate IsNewer(s: Store, p: PutCall) {
    p.key in s.meta ==> CompareVersions(First(p.version), First(s.meta[p.key].version)) > 0
  }

  function ApplyPut(f: Platform, s: Store, p: PutCall): Store {
    if IsNewer(s, p)
    then
      var meta := MetaOf(f, p);
      Store(s.meta[p.key := meta], s.files[FileOf(f, p.key) := p.data], s.events + [PutEvent(meta, p.data)])
    else s
  }

  function ApplyPuts(f: Platform, s: Store, ps: seq<PutCall>): Store {
    if ps == [] then s else ApplyPut(f, ApplyPuts(f, s, ps[..|ps| - 1]), ps[|ps| - 1])
  }

  /** Different keys use different files. */
  lemma FilesAreSeparate(f: Platform, a: string, b: string)
    requires FileOf(f, a) == FileOf(f, b)
    ensures a == b
  {
    RoundTrip(f.tables, a);
    RoundTrip(f.tables, b);
  }

  /** The put that a store shows for a key: stored as a whole, and none of the key's puts newer. */
  ghost predicate Shows(f: Platform, s: Store, ps: seq<PutCall>, p: PutCall) {
    && p in ps
    && p.key in s.meta && s.meta[p.key] == MetaOf(f, p)
    && FileOf(f, p.key) in s.files && s.files[FileOf(f, p.key)] == p.data
    && forall q :: q in ps && q.key == p.key ==> CompareVersions(First(q.version), First(p.version)) <= 0
  }

  /** What a reader gets for a key. */
  function Read(f: Platform, s: Store, key: string): Option<(string, BlobMetadata)> {
    if key in s.meta && FileOf(f, key) in s.files then Some((s.files[FileOf(f, key)], s.meta[key])) else None
  }

  /** None of the puts of a key is newer than what the store already had. */
  ghost predicate NothingNewer(s: Store, ps: seq<PutCall>, key: string) {
    forall q :: q in ps && q.key == key ==>
        key in s.meta && CompareVersions(First(q.version), First(s.meta[key].version)) <= 0
  }

  /** The store has for this key what it had before. */
  ghost predicate KeepsKey(f: Platform, s: Store, s': Store, key: string) {
    && Read(f, s', key) == Read(f, s, key)
    && (key in s'.meta <==> key in s.meta) && (key in s.meta ==> s'.meta[key] == s.meta[key])
  }

  lemma OtherPutsKeepKey(f: Platform, s: Store, q: PutCall, key: string)
    requires q.key != key || !IsNewer(s, q)
    ensures KeepsKey(f, s, ApplyPut(f, s, q), key)
  {
    if q.key != key && FileOf(f, q.key) == FileOf(f, key) { FilesAreSeparate(f, q.key, key); }
  }

  lemma NewPutShows(f: Platform, s: Store, w: seq<PutCall>, q: PutCall)
    requires IsNewer(s, q)
    requires forall r :: r in w + [q] && r.key == q.key ==> CompareVersions(First(r.version), First(q.version)) <= 0
    ensures Shows(f, ApplyPut(f, s, q), w + [q], q)
  {
  }

  lemma StillShows(f: Platform, s: Store, w: seq<PutCall>, p: PutCall, q: PutCall)
    requires Shows(f, s, w, p) && (q.key != p.key || !IsNewer(s, q))
    ensures Shows(f, ApplyPut(f, s, q), w + [q], p)
  {
    OtherPutsKeepKey(f, s, q, p.key);
    assert p in w + [q];
  }

  /** After any puts to a store a key shows either its greatest version, which is newer than
      what the store had, or, when no put was newer, exactly what it had. */
  lemma {:induction false} GreatestWins(f: Platform, s: Store, ps: seq<PutCall>, key: string)
    returns (p: Option<PutCall>)
    ensures p.None? ==> NothingNewer(s, ps, key) && KeepsKey(f, s, ApplyPuts(f, s, ps), key)
    ensures p.Some? ==> p.value.key == key && Shows(f, ApplyPuts(f, s, ps), ps, p.value) && IsNewer(s, p.value)
  {
    if ps == [] {
      p := None;
    } else {
      var w, q := ps[..|ps| - 1], ps[|ps| - 1];
      assert ps == w + [q];
      p := GreatestWins(f, s, w, key);
      var now := ApplyPuts(f, s, w);
      if q.key == key && IsNewer(now, q) {
        NewerBeatsAll(s, w, p, q);
        NewPutShows(f, now, w, q);
        p := Some(q);
      } else if p.Some? {
        StillShows(f, now, w, p.value, q);
      } else {
        OtherPutsKeepKey(f, now, q, key);
      }
    }
  }

  lemma NewerBeatsAll(s: Store, w: seq<PutCall>, p: Option<PutCall>, q: PutCall)
    requires p.None? ==> NothingNewer(s, w, q.key) && IsNewer(s, q)
    requires p.Some? ==> p.value.key == q.key && IsNewer(s, p.value)
    requires p.Some? ==> CompareVersions(First(q.version), First(p.value.version)) > 0
    requires p.Some? ==> forall r :: r in w && r.key == q.key ==>
             CompareVersions(First(r.version), First(p.value.version)) <= 0
    ensures forall r :: r in w + [q] && r.key == q.key ==> CompareVersions(First(r.version), First(q.version)) <= 0
    ensures IsNewer(s, q)
  {
    var top := if p.Some? then First(p.value.version) else if q.key in s.meta then First(s.meta[q.key].version) else "";
    VersionsAreOrdered(First(q.version), First(q.version), "");
    forall r | r in w && r.key == q.key ensures CompareVersions(First(r.version), First(q.version)) <= 0 {
      VersionsAreOrdered(First(q.version), top, "");
      VersionsAreOrdered(First(r.version), top, First(q.version));
    }
    if q.key in s.meta {
      var stored := First(s.meta[q.key].version);
      VersionsAreOrdered(stored, top, First(q.version));
      VersionsAreOrdered(top, stored, "");
      VersionsAreOrdered(top, First(q.version), stored);
      VersionsAreOrdered(First(q.version), stored, top);
    }
  }

  /** A put under a newer version is there, under its own key, with all it was called with, and is
      announced; any other put changes nothing. */
  lemma PutReadsBack(f: Platform, s: Store, p: PutCall)
    ensures var s', version := ApplyPut(f, s, p), if p.version == [] then "" else p.version[0];
            var newer := p.key in s.meta ==>
              var stored := s.meta[p.key].version;
              CompareVersions(version, if stored == [] then "" else stored[0]) > 0;
            if !newer then s' == s
            else
              && Read(f, s', p.key).Some?
              && var (data, meta) := Read(f, s', p.key).value;
                 && data == p.data && meta.key == p.key && meta.version == p.version && meta.parents == p.parents
                 && meta.contentType == p.contentType && meta.contentHash == f.sha256(p.data)
                 && meta.size == |p.data| && s'.events == s.events + [PutEvent(meta, data)]
  {
  }

  /** Over a stored numbered version exactly a greater number, or a later text under the same
      number, is put. */
  lemma GreaterNumberReplaces(f: Platform, s: Store, p: PutCall, a: string, m: nat, b: string, n: nat)
    requires p.key in s.meta && s.meta[p.key].version == [a + "-" + Decimal(m)] && p.version == [b + "-" + Decimal(n)]
    ensures if n > m || (n == m && Precedes(a + "-" + Decimal(m), b + "-" + Decimal(n)))
            then Read(f, ApplyPut(f, s, p), p.key) == Some((p.data, MetaOf(f, p)))
            else ApplyPut(f, s, p) == s
  {
    NewerIsGreaterNumber(a, m, b, n);
    VersionsAreOrdered(a + "-" + Decimal(m), b + "-" + Decimal(n), "");
  }

  /** Puts that agree: the same version of the same key is always the same put. */
  ghost predicate Consistent(ps: seq<PutCall>) {
    forall p, q :: p in ps && q in ps && p.key == q.key && First(p.version) == First(q.version) ==> p == q
  }

  /** A key without its entry and its file reads as absent, every other key as before. */
  lemma RemovalIsSeparate(f: Platform, s: Store, key: string, events: seq<StoreEvent>)
    ensures Read(f, Store(s.meta - {key}, s.files - {FileOf(f, key)}, events), key) == None
    ensures forall other :: other != key ==>
              Read(f, Store(s.meta - {key}, s.files - {FileOf(f, key)}, events), other) == Read(f, s, other)
  {
    forall other | other != key ensures FileOf(f, other) != FileOf(f, key) {
      if FileOf(f, other) == FileOf(f, key) { FilesAreSeparate(f, other, key); }
    }
  }

  /** Last writer wins: the same puts to the same store, in any order and with any repetition,
      leave every reader with the same answer. */
  lemma OrderDoesNotMatter(f: Platform, s: Store, ps: seq<PutCall>, qs: seq<PutCall>, key: string)
    requires Consistent(ps) && forall p :: p in ps <==> p in qs
    ensures Read(f, ApplyPuts(f, s, ps), key) == Read(f, ApplyPuts(f, s, qs), key)
  {
    var p := GreatestWins(f, s, ps, key);
    var q := GreatestWins(f, s, qs, key);
    assert p.Some? ==> p.value in qs;
    assert q.Some? ==> q.value in ps;
    if p.Some? && q.Some? { VersionsAreOrdered(First(p.value.version), First(q.value.version), ""); }
  }

  // ---------- what subscribers see ----------

  function Announced(events: seq<StoreEvent>, key: string): seq<string> {
    if events == [] then []
    else
      var e := events[|events| - 1];
      Announced(events[..|events| - 1], key) + if e.PutEvent? && e.meta.key == key then [First(e.meta.version)] else []
  }

  ghost predicate Increasing(vs: seq<string>) {
    forall i, j :: 0 <= i < j < |vs| ==> CompareVersions(vs[i], vs[j]) < 0
  }

  lemma AppendIncreases(vs: seq<string>, v: string)
    requires Increasing(vs) && (vs != [] ==> CompareVersions(vs[|vs| - 1], v) < 0)
    ensures Increasing(vs + [v])
  {
    forall i | 0 <= i < |vs| ensures CompareVersions(vs[i], v) < 0 {
      var last := vs[|vs| - 1];
      VersionsAreOrdered(vs[i], last, v);
      VersionsAreOrdered(vs[i], v, last);
      VersionsAreOrdered(last, v, vs[i]);
      if i < |vs| - 1 { assert CompareVersions(vs[i], last) < 0; }
    }
  }

  /** The versions announced for a key strictly increase, and the last, if any, is the stored one. */
  ghost predicate WellAnnounced(s: Store, key: string) {
    var vs := Announced(s.events, key);
    Increasing(vs) && (vs != [] ==> key in s.meta && First(s.meta[key].version) == vs[|vs| - 1])
  }

  lemma AnnouncedMore(events: seq<StoreEvent>, meta: BlobMetadata, data: string, key: string)
    ensures Announced(events + [PutEvent(meta, data)], key) ==
            if meta.key == key then Announced(events, key) + [First(meta.version)] else Announced(events, key)
  {
    var more := events + [PutEvent(meta, data)];
    assert more[..|more| - 1] == events;
    assert Announced(events, key) + [] == Announced(events, key);
  }

  lemma PutKeepsAnnounced(f: Platform, s: Store, p: PutCall, key: string)
    requires WellAnnounced(s, key)
    ensures WellAnnounced(ApplyPut(f, s, p), key)
  {
    if IsNewer(s, p) {
      AnnouncedMore(s.events, MetaOf(f, p), p.data, key);
      var vs, v := Announced(s.events, key), First(p.version);
      if p.key == key {
        assert vs != [] ==> CompareVersions(vs[|vs| - 1], v) < 0 by {
          if vs != [] { VersionsAreOrdered(v, vs[|vs| - 1], ""); }
        }
        assert Increasing(vs + [v]) by { AppendIncreases(vs, v); }
      }
    }
  }

  /** From a store that has announced nothing yet, whatever it holds. */
  lemma {:induction false} AnnouncementsIncrease(f: Platform, s: Store, ps: seq<PutCall>, key: string)
    requires s.events == []
    ensures WellAnnounced(ApplyPuts(f, s, ps), key)
  {
    if ps != [] {
      AnnouncementsIncrease(f, s, ps[..|ps| - 1], key);
      PutKeepsAnnounced(f, ApplyPuts(f, s, ps[..|ps| - 1]), ps[|ps| - 1], key);
    }
  }

  // ---------- the object ----------

  class BlobStore {
    const platform: Platform
    var meta: map<string, BlobMetadata>
    var files: map<string, string>
    var events: seq<StoreEvent>

    ghost function Now(): Store
      reads this
    {
      Store(meta, files, events)
    }

    /** Opens a store on the metadata and files that are there; a new one has none. */
    constructor (platform: Platform, meta: map<string, BlobMetadata>, files: map<string, string>)
      ensures Now() == Store(meta, files, []) && this.platform == platform
    {
      this.platform, this.meta, this.files, events := platform, meta, files, [];
    }

    method Get(key: string) returns (r: Option<(string, BlobMetadata)>)
      ensures r == Read(platform, Now(), key)
    {
      if key !in meta { return None; }
      var path := EncodeFilenameLoop(platform.tables, key);
      if path in files { r := Some((files[path], meta[key])); } else { r := None; }
    }

    /** Returns the version that is current afterwards. */
    method Put(key: string, data: string, version: seq<string>, parents: seq<string>, contentType: Option<string>)
      returns (current: seq<string>)
      modifies this
      ensures Now() == ApplyPut(platform, old(Now()), PutCall(key, data, version, parents, contentType))
      ensures key in meta && current == meta[key].version
    {
      if key in meta {
        var stored := meta[key];
        if CompareVersions(First(version), First(stored.version)) <= 0 { return stored.version; }
      }
      var newMeta := BlobMetadata(key, version, contentType, parents, platform.sha256(data), |data|);
      var path := EncodeFilenameLoop(platform.tables, key);
      files := files[path := data];
      meta := meta[key := newMeta];
      events := events + [PutEvent(newMeta, data)];
      current := version;
    }

    /** Removes a key; the event tells what was there. */
    method Delete(key: string)
      modifies this
      ensures meta == old(meta) - {key} && files == old(files) - {FileOf(platform, key)}
      ensures events == old(events) + [if key in old(meta)
                                       then DeleteEvent(key, old(meta)[key].version, old(meta)[key].contentType)
                                       else DeleteEvent(key, [], None)]
      ensures Read(platform, Now(), key) == None
      ensures forall other :: other != key ==> Read(platform, Now(), other) == Read(platform, old(Now()), other)
    {
      var event := DeleteEvent(key, [], None);
      if key in meta { event := DeleteEvent(key, meta[key].version, meta[key].contentType); }
      RemovalIsSeparate(platform, Now(), key, events + [event]);
      meta := meta - {key};
      var path := EncodeFilenameLoop(platform.tables, key);
      if path in files { files := files - {path}; }
      assert files == old(files) - {path};
      events := events + [event];
    }
  }
}
