/**
 The content-addressed cache of archive members. A cached call loads and verifies the private entry of an
 archive, or sets a bad entry aside, reads the archive itself and builds a new one.
 */
module ArchiveCache {
  import opened Wrappers

  /** SHA-256 as an injective name of what is hashed. */
  datatype Sha = OfArchive(archive: Archive) | OfBytes(data: Bytes)

  /** A member of a ZIP file: the size its header declares, and the bytes that reading it gives. */
  datatype Member = Member(path: string, supported: bool, size: nat, data: Bytes)

  /** The members that are not directories, or a file that is no ZIP archive. */
  datatype Archive = Zip(members: seq<Member>) | BadZip

  datatype Bounds = Bounds(maxMembers: nat, maxMemberBytes: nat, maxTotalBytes: nat)

  /** Canonical member paths, case folding, and the encoded length of the manifest for some members. */
  datatype Env = Env(canonical: string -> bool, fold: string -> string, manifestLength: map<string, Bytes> -> nat)

  datatype Error = Unreadable | TooManyMembers | BadPath | CollidingPaths | UnsupportedEncoding | MemberTooLarge
                 | TotalTooLarge | SizeChanged | BadEntry | BadManifest | BadLedger | BadObject | BadTotal
                 | Uncaught

  const MAX_MANIFEST := 16 * 1024 * 1024

  // ----- reading the archive -----

  function TotalSize(ms: seq<Member>): nat { if ms == [] then 0 else TotalSize(ms[..|ms| - 1]) + ms[|ms| - 1].size }

  function MembersOf(ms: seq<Member>): map<string, Bytes> {
    if ms == [] then map[] else MembersOf(ms[..|ms| - 1])[ms[|ms| - 1].path := ms[|ms| - 1].data]
  }

  lemma {:induction false} PathsListed(ms: seq<Member>, path: string)
    ensures path in MembersOf(ms) <==> exists i :: 0 <= i < |ms| && ms[i].path == path
    decreases |ms|
  {
    if ms != [] {
      var front := ms[..|ms| - 1];
      PathsListed(front, path);
      assert forall i :: 0 <= i < |front| ==> front[i] == ms[i];
    }
  }

  predicate GoodMember(env: Env, m: Member, b: Bounds) {
    env.canonical(m.path) && m.supported && m.size <= b.maxMemberBytes && |m.data| == m.size
  }

  predicate NoCollision(env: Env, paths: seq<string>) {
    forall i, j :: 0 <= i < j < |paths| ==> env.fold(paths[i]) != env.fold(paths[j])
  }

  /** The folded paths seen so far. */
  function Folded(env: Env, ms: seq<Member>): set<string> {
    if ms == [] then {} else Folded(env, ms[..|ms| - 1]) + {env.fold(ms[|ms| - 1].path)}
  }

  lemma {:induction false} FoldedMeans(env: Env, ms: seq<Member>, f: string)
    ensures f in Folded(env, ms) <==> exists i :: 0 <= i < |ms| && env.fold(ms[i].path) == f
    decreases |ms|
  {
    if ms != [] {
      var front := ms[..|ms| - 1];
      FoldedMeans(env, front, f);
      assert forall i :: 0 <= i < |front| ==> front[i] == ms[i];
    }
  }

  function Paths(ms: seq<Member>): seq<string> { seq(|ms|, i requires 0 <= i < |ms| => ms[i].path) }

  /** What the reading loop requires of the members as a whole. */
  predicate MembersRead(env: Env, ms: seq<Member>, b: Bounds) {
    && (forall i :: 0 <= i < |ms| ==> GoodMember(env, ms[i], b))
    && NoCollision(env, Paths(ms)) && TotalSize(ms) <= b.maxTotalBytes
  }

  /** When an archive can be read under some bounds. */
  predicate Readable(env: Env, a: Archive, b: Bounds) {
    a.Zip? && |a.members| <= b.maxMembers && MembersRead(env, a.members, b)
  }

  lemma {:induction false} TotalSizePrefix(ms: seq<Member>, n: nat)
    requires n <= |ms|
    ensures TotalSize(ms[..n]) <= TotalSize(ms)
    decreases |ms|
  {
    if n == |ms| {
      assert ms[..n] == ms;
    } else {
      TotalSizePrefix(ms[..|ms| - 1], n);
      assert ms[..|ms| - 1][..n] == ms[..n];
    }
  }

  lemma MembersStep(ms: seq<Member>, i: nat)
    requires i < |ms|
    ensures TotalSize(ms[..i + 1]) == TotalSize(ms[..i]) + ms[i].size
    ensures MembersOf(ms[..i + 1]) == MembersOf(ms[..i])[ms[i].path := ms[i].data]
  {
    assert ms[..i + 1][..i] == ms[..i];
  }

  lemma FoldedStep(env: Env, ms: seq<Member>, m: Member)
    ensures Folded(env, ms + [m]) == Folded(env, ms) + {env.fold(m.path)}
  {
    assert (ms + [m])[..|ms|] == ms;
  }

  lemma CollisionStep(env: Env, ms: seq<Member>, last: Member)
    requires NoCollision(env, Paths(ms))
    ensures NoCollision(env, Paths(ms + [last])) <==> env.fold(last.path) !in Folded(env, ms)
  {
    var ps := Paths(ms + [last]);
    assert ps == Paths(ms) + [last.path];
    FoldedMeans(env, ms, env.fold(last.path));
    if NoCollision(env, ps) {
      forall i | 0 <= i < |ms| ensures env.fold(ms[i].path) != env.fold(last.path) {
        assert ps[i] == ms[i].path && ps[|ms|] == last.path;
      }
    }
  }

  lemma MembersReadPrefix(env: Env, ms: seq<Member>, b: Bounds, n: nat)
    requires MembersRead(env, ms, b) && n <= |ms|
    ensures MembersRead(env, ms[..n], b)
  {
    TotalSizePrefix(ms, n);
    hide TotalSize, GoodMember;
    assert Paths(ms[..n]) == Paths(ms)[..n];
  }

  lemma MembersReadStep(env: Env, ms: seq<Member>, m: Member, b: Bounds)
    requires MembersRead(env, ms, b)
    ensures MembersRead(env, ms + [m], b) <==>
      GoodMember(env, m, b) && env.fold(m.path) !in Folded(env, ms) && TotalSize(ms) + m.size <= b.maxTotalBytes
    ensures TotalSize(ms + [m]) == TotalSize(ms) + m.size && MembersOf(ms + [m]) == MembersOf(ms)[m.path := m.data]
  {
    var longer := ms + [m];
    assert longer[..|ms|] == ms && longer[..|ms| + 1] == longer && longer[|ms|] == m;
    MembersStep(longer, |ms|);
    CollisionStep(env, ms, m);
    hide TotalSize, MembersOf, Folded, GoodMember, NoCollision, Paths;
  }

  /** `_read_archive`. */
  method ReadArchive(env: Env, a: Archive, b: Bounds) returns (r: Result<map<string, Bytes>, Error>)
    ensures r.Ok? <==> Readable(env, a, b)
    ensures r.Ok? ==> r.value == MembersOf(a.members)
    ensures r != Err(Uncaught)
  {
    if a.BadZip? { return Err(Unreadable); }
    var ms := a.members;
    if |ms| > b.maxMembers { return Err(TooManyMembers); }
    var members: map<string, Bytes>, folded: set<string>, total := map[], {}, 0;
    assert ms[..0] == [];
    var i := 0;
    while i < |ms|
      invariant 0 <= i <= |ms| && members == MembersOf(ms[..i]) && total == TotalSize(ms[..i])
      invariant folded == Folded(env, ms[..i]) && MembersRead(env, ms[..i], b)
    {
      hide MembersOf, TotalSize, Folded, MembersRead;
      var m := ms[i];
      assert ms[..i + 1] == ms[..i] + [m];
      MembersReadStep(env, ms[..i], m, b);
      FoldedStep(env, ms[..i], m);
      if MembersRead(env, ms, b) { MembersReadPrefix(env, ms, b, i + 1); }
      if !env.canonical(m.path) { return Err(BadPath); }
      if env.fold(m.path) in folded { return Err(CollidingPaths); }
      folded := folded + {env.fold(m.path)};
      if !m.supported { return Err(UnsupportedEncoding); }
      if m.size > b.maxMemberBytes { return Err(MemberTooLarge); }
      total := total + m.size;
      if total > b.maxTotalBytes { return Err(TotalTooLarge); }
      if |m.data| != m.size { return Err(SizeChanged); }
      members := members[m.path := m.data];
      i := i + 1;
    }
    assert ms[..|ms|] == ms;
    return Ok(members);
  }

  // ----- lists with the same members -----

  /** What a readable list promises about itself, whatever the bounds. */
  predicate Honest(ms: seq<Member>) {
    && (forall i :: 0 <= i < |ms| ==> ms[i].supported && |ms[i].data| == ms[i].size)
    && (forall i, j :: 0 <= i < j < |ms| ==> ms[i].path != ms[j].path)
  }

  lemma ReadableIsHonest(env: Env, a: Archive, b: Bounds)
    requires Readable(env, a, b)
    ensures Honest(a.members)
  {
    var ps := Paths(a.members);
    forall i, j | 0 <= i < j < |ps| ensures a.members[i].path != a.members[j].path {
      assert env.fold(ps[i]) != env.fold(ps[j]);
    }
  }

  lemma {:induction false} MemberData(ms: seq<Member>, i: nat)
    requires i < |ms| && Honest(ms)
    ensures ms[i].path in MembersOf(ms) && MembersOf(ms)[ms[i].path] == ms[i].data
    decreases |ms|
  {
    var front := ms[..|ms| - 1];
    if i < |front| { MemberData(front, i); }
  }

  lemma {:induction false} TotalConcat(a: seq<Member>, b: seq<Member>)
    ensures TotalSize(a + b) == TotalSize(a) + TotalSize(b)
    decreases |b|
  {
    if b == [] {
      assert a + b == a;
    } else {
      assert (a + b)[..|a + b| - 1] == a + b[..|b| - 1];
      TotalConcat(a, b[..|b| - 1]);
    }
  }

  lemma NoMembers(ns: seq<Member>)
    ensures MembersOf(ns) == map[] <==> ns == []
  {
    if ns != [] { PathsListed(ns, ns[0].path); }
  }

  /** Two lists of the same members are equally long, and equally large. */
  lemma {:induction false} SameTotal(ms: seq<Member>, ns: seq<Member>)
    requires Honest(ms) && Honest(ns) && MembersOf(ms) == MembersOf(ns)
    ensures |ms| == |ns| && TotalSize(ms) == TotalSize(ns)
    decreases |ms|
  {
    if ms == [] {
      NoMembers(ns);
    } else {
      var front, last := ms[..|ms| - 1], ms[|ms| - 1];
      PathsListed(ms, last.path);
      PathsListed(ns, last.path);
      var j :| 0 <= j < |ns| && ns[j].path == last.path;
      var rest := ns[..j] + ns[j + 1..];
      MemberData(ms, |ms| - 1);
      MemberData(ns, j);
      Without(ns, j);
      Without(ms, |ms| - 1);
      assert ms[..|ms| - 1] + ms[|ms|..] == front;
      SameTotal(front, rest);
    }
  }

  lemma Without(ns: seq<Member>, j: nat)
    requires Honest(ns) && j < |ns|
    ensures var rest := ns[..j] + ns[j + 1..];
      Honest(rest) && MembersOf(rest) == MembersOf(ns) - {ns[j].path} && TotalSize(ns) == TotalSize(rest) + ns[j].size
  {
    var rest := ns[..j] + ns[j + 1..];
    assert ns == (ns[..j] + [ns[j]]) + ns[j + 1..];
    TotalConcat(ns[..j] + [ns[j]], ns[j + 1..]);
    TotalConcat(ns[..j], [ns[j]]);
    TotalConcat(ns[..j], ns[j + 1..]);
    assert TotalSize([ns[j]]) == ns[j].size by { assert [ns[j]][..0] == []; }
    SameButOne(ns, j);
  }

  lemma RestIsHonest(ns: seq<Member>, j: nat)
    requires Honest(ns) && j < |ns|
    ensures var rest := ns[..j] + ns[j + 1..];
      && Honest(rest)
      && (forall i :: 0 <= i < |rest| ==> rest[i] == if i < j then ns[i] else ns[i + 1])
      && (forall i :: 0 <= i < |ns| && i != j ==> ns[i] == rest[if i < j then i else i - 1])
  {
  }

  lemma RestHas(ns: seq<Member>, j: nat, path: string)
    requires Honest(ns) && j < |ns| && path in MembersOf(ns) && path != ns[j].path
    ensures var rest := ns[..j] + ns[j + 1..]; path in MembersOf(rest) && MembersOf(rest)[path] == MembersOf(ns)[path]
  {
    var rest := ns[..j] + ns[j + 1..];
    RestIsHonest(ns, j);
    PathsListed(ns, path);
    var i :| 0 <= i < |ns| && ns[i].path == path;
    var k := if i < j then i else i - 1;
    PathsListed(rest, rest[k].path);
    MemberData(ns, i);
    MemberData(rest, k);
  }

  lemma RestHasNoMore(ns: seq<Member>, j: nat, path: string)
    requires Honest(ns) && j < |ns| && path in MembersOf(ns[..j] + ns[j + 1..])
    ensures path in MembersOf(ns) && path != ns[j].path
  {
    var rest := ns[..j] + ns[j + 1..];
    RestIsHonest(ns, j);
    PathsListed(rest, path);
    PathsListed(ns, path);
    var k :| 0 <= k < |rest| && rest[k].path == path;
    var i := if k < j then k else k + 1;
    assert ns[i].path == path;
  }

  lemma SameButOne(ns: seq<Member>, j: nat)
    requires Honest(ns) && j < |ns|
    ensures var rest := ns[..j] + ns[j + 1..]; Honest(rest) && MembersOf(rest) == MembersOf(ns) - {ns[j].path}
  {
    RestIsHonest(ns, j);
    hide MembersOf, Honest;
    var rest := ns[..j] + ns[j + 1..];
    var a, b := MembersOf(rest), MembersOf(ns) - {ns[j].path};
    forall path | path in b ensures path in a && a[path] == b[path] { RestHas(ns, j, path); }
    forall path | path in a ensures path in b { RestHasNoMore(ns, j, path); }
  }

  /** Whether a list can be read depends on its members only, not on their order. */
  lemma ReadableTransfers(env: Env, ms: seq<Member>, ns: seq<Member>, b: Bounds)
    requires Honest(ms) && Honest(ns) && MembersOf(ms) == MembersOf(ns) && Readable(env, Zip(ms), b)
    ensures Readable(env, Zip(ns), b)
  {
    SameTotal(ms, ns);
    hide TotalSize;
    forall i | 0 <= i < |ns| ensures GoodMember(env, ns[i], b) {
      var k := Counterpart(ms, ns, i);
      assert GoodMember(env, ms[k], b);
    }
    hide GoodMember;
    var ps := Paths(ns);
    forall i, j | 0 <= i < j < |ps| ensures env.fold(ps[i]) != env.fold(ps[j]) {
      var k, l := Counterpart(ms, ns, i), Counterpart(ms, ns, j);
      assert Paths(ms)[k] == ps[i] && Paths(ms)[l] == ps[j];
    }
  }

  /** The index in `ms` of the member that `ns` has at `i`. */
  ghost function Counterpart(ms: seq<Member>, ns: seq<Member>, i: nat): (k: nat)
    requires Honest(ms) && Honest(ns) && MembersOf(ms) == MembersOf(ns) && i < |ns|
    ensures k < |ms| && ms[k].path == ns[i].path && ms[k].data == ns[i].data && ms[k].size == ns[i].size
  {
    MemberData(ns, i);
    PathsListed(ns, ns[i].path);
    PathsListed(ms, ns[i].path);
    var k :| 0 <= k < |ms| && ms[k].path == ns[i].path;
    MemberData(ms, k);
    k
  }

  // ----- entries -----

  datatype Item = Item(path: string, sha: Sha, bytes: int) | BadItem

  /**
   A manifest as parsed; a file that is missing or no manifest at all; or a file within the size limit whose values
   are nested too deep for the parser, whose error nobody catches.
   */
  datatype Manifest =
    | Manifest(length: nat, schemaOk: bool, archive: Option<Sha>, memberCount: int, totalBytes: int, items: seq<Item>)
    | NoManifest | TooDeep

  datatype Object = File(data: Bytes) | Link

  /** The objects of an entry, or something in their place that cannot even be searched: on POSIX, a plain file. */
  datatype Store = Folder(files: map<Sha, Object>) | NoFolder {
    function Files(): map<Sha, Object> { if Folder? then files else map[] }
  }

  datatype Slot = Directory(manifest: Manifest, store: Store) | OtherFile | Reparse

  predicate WellFormed(items: seq<Item>) {
    forall i :: 0 <= i < |items| ==> items[i].Item? && items[i].sha.OfBytes? && items[i].bytes >= 0
  }

  /** The list of members that a ledger describes: each digest names its content. */
  function Described(items: seq<Item>): (ms: seq<Member>)
    requires WellFormed(items)
    ensures |ms| == |items|
  {
    seq(|items|, i requires 0 <= i < |items| => Member(items[i].path, true, items[i].bytes, items[i].sha.data))
  }

  /** Every object of the ledger is in its place and hashes to its name. */
  predicate Stored(objects: map<Sha, Object>, items: seq<Item>)
    requires WellFormed(items)
  {
    forall i :: 0 <= i < |items| ==> items[i].sha in objects && objects[items[i].sha] == File(items[i].sha.data)
  }

  predicate IdentityOk(m: Manifest, archive: Sha, b: Bounds) {
    && m.Manifest? && m.length <= MAX_MANIFEST && m.schemaOk && m.archive == Some(archive)
    && m.memberCount == |m.items| <= b.maxMembers
  }

  /** When an entry loads: the archive its ledger describes is readable, and its objects are stored. */
  predicate Loads(env: Env, slot: Slot, archive: Sha, b: Bounds) {
    && slot.Directory? && IdentityOk(slot.manifest, archive, b)
    && WellFormed(slot.manifest.items) && Stored(slot.store.Files(), slot.manifest.items)
    && Readable(env, Zip(Described(slot.manifest.items)), b)
    && slot.manifest.totalBytes == TotalSize(Described(slot.manifest.items))
  }

  /** What is checked before the first object is looked up. */
  predicate Consulted(env: Env, item: Item, b: Bounds) {
    item.Item? && env.canonical(item.path) && 0 <= item.bytes <= b.maxMemberBytes
  }

  /**
   Loading an entry raises something that no caller catches: the manifest is nested too deep, or the objects cannot
   be searched and the first of them is looked up.
   */
  predicate Escapes(env: Env, slot: Slot, archive: Sha, b: Bounds) {
    slot.Directory? && (slot.manifest.TooDeep? || (
      && slot.store.NoFolder? && IdentityOk(slot.manifest, archive, b)
      && slot.manifest.items != [] && Consulted(env, slot.manifest.items[0], b)))
  }

  /** What one turn of the loading loop requires. */
  predicate GoodItem(env: Env, objects: map<Sha, Object>, item: Item, b: Bounds) {
    && item.Item? && env.canonical(item.path) && 0 <= item.bytes <= b.maxMemberBytes
    && item.sha in objects && objects[item.sha].File?
    && |objects[item.sha].data| == item.bytes && OfBytes(objects[item.sha].data) == item.sha
  }

  lemma DescribedPrefix(items: seq<Item>, n: nat)
    requires WellFormed(items) && n <= |items|
    ensures WellFormed(items[..n]) && Described(items[..n]) == Described(items)[..n]
  {
  }

  /** What the loading loop requires of the ledger as a whole. */
  predicate ItemsLoad(env: Env, objects: map<Sha, Object>, items: seq<Item>, b: Bounds) {
    WellFormed(items) && Stored(objects, items) && MembersRead(env, Described(items), b)
  }

  lemma ItemsLoadPrefix(env: Env, objects: map<Sha, Object>, items: seq<Item>, b: Bounds, n: nat)
    requires ItemsLoad(env, objects, items, b) && n <= |items|
    ensures ItemsLoad(env, objects, items[..n], b)
  {
    DescribedPrefix(items, n);
    MembersReadPrefix(env, Described(items), b, n);
    hide MembersRead, Described;
  }

  /** One more item. */
  lemma ItemsLoadStep(env: Env, objects: map<Sha, Object>, items: seq<Item>, item: Item, b: Bounds)
    requires ItemsLoad(env, objects, items, b)
    ensures ItemsLoad(env, objects, items + [item], b) <==>
      && GoodItem(env, objects, item, b) && env.fold(item.path) !in Folded(env, Described(items))
      && TotalSize(Described(items)) + item.bytes <= b.maxTotalBytes
    ensures GoodItem(env, objects, item, b) ==> (
      && WellFormed(items + [item])
      && MembersOf(Described(items + [item])) == MembersOf(Described(items))[item.path := item.sha.data]
      && TotalSize(Described(items + [item])) == TotalSize(Described(items)) + item.bytes)
  {
    var longer := items + [item];
    assert longer[|items|] == item;
    assert WellFormed(longer) <==> item.Item? && item.sha.OfBytes? && item.bytes >= 0;
    if WellFormed(longer) {
      assert Stored(objects, longer) <==> item.sha in objects && objects[item.sha] == File(item.sha.data);
      DescribedStep(items, item);
      MembersReadStep(env, Described(items), Member(item.path, true, item.bytes, item.sha.data), b);
      hide MembersOf, TotalSize, Folded, MembersRead, Described, WellFormed, Stored;
    }
  }

  lemma DescribedStep(items: seq<Item>, item: Item)
    requires WellFormed(items) && WellFormed(items + [item]) && item.Item? && item.sha.OfBytes? && item.bytes >= 0
    ensures Described(items + [item]) == Described(items) + [Member(item.path, true, item.bytes, item.sha.data)]
  {
  }

  lemma GoodItemMeans(env: Env, objects: map<Sha, Object>, item: Item, b: Bounds)
    ensures GoodItem(env, objects, item, b) <==>
      && item.Item? && env.canonical(item.path) && 0 <= item.bytes <= b.maxMemberBytes
      && item.sha in objects && objects[item.sha].File?
      && |objects[item.sha].data| == item.bytes && OfBytes(objects[item.sha].data) == item.sha
  {
  }

  lemma NothingLoaded(env: Env, objects: map<Sha, Object>, b: Bounds)
    ensures ItemsLoad(env, objects, [], b) && WellFormed([]) && Described([]) == []
    ensures MembersOf([]) == map[] && TotalSize([]) == 0 && Folded(env, []) == {}
  {
  }

  /** The checks of one turn of the loop, after the items `before`. */
  method CheckItem(env: Env, store: Store, ghost before: seq<Item>, item: Item, b: Bounds, folded: set<string>, total: nat)
    returns (e: Option<Error>)
    requires ItemsLoad(env, store.Files(), before, b)
    requires folded == Folded(env, Described(before)) && total == TotalSize(Described(before))
    ensures e.None? <==> ItemsLoad(env, store.Files(), before + [item], b)
    ensures e.None? ==> GoodItem(env, store.Files(), item, b) && store.Folder?
    ensures e == Some(Uncaught) <==> store.NoFolder? && Consulted(env, item, b) && env.fold(item.path) !in folded
  {
    ItemsLoadStep(env, store.Files(), before, item, b);
    GoodItemMeans(env, store.Files(), item, b);
    hide GoodItem, ItemsLoad, Folded, TotalSize, Described;
    if item.BadItem? { return Some(BadLedger); }
    if !env.canonical(item.path) { return Some(BadPath); }
    if env.fold(item.path) in folded { return Some(CollidingPaths); }
    if item.bytes < 0 || item.bytes > b.maxMemberBytes { return Some(MemberTooLarge); }
    if store.NoFolder? { return Some(Uncaught); }
    if item.sha !in store.files || store.files[item.sha].Link? { return Some(BadObject); }
    var data := store.files[item.sha].data;
    if |data| != item.bytes || OfBytes(data) != item.sha { return Some(BadObject); }
    if total + item.bytes > b.maxTotalBytes { return Some(TotalTooLarge); }
    return None;
  }

  /** The loop of `_load_entry`. */
  method LoadItems(env: Env, store: Store, items: seq<Item>, b: Bounds)
    returns (r: Result<map<string, Bytes>, Error>, total: nat)
    ensures r.Ok? <==> ItemsLoad(env, store.Files(), items, b)
    ensures r == Err(Uncaught) <==> store.NoFolder? && items != [] && Consulted(env, items[0], b)
    ensures r.Ok? ==> WellFormed(items) && r.value == MembersOf(Described(items)) && total == TotalSize(Described(items))
  {
    var members: map<string, Bytes>, folded: set<string> := map[], {};
    total := 0;
    NothingLoaded(env, store.Files(), b);
    assert items[..0] == [];
    hide *;
    var i := 0;
    while i < |items|
      invariant 0 <= i <= |items| && (store.NoFolder? ==> i == 0 && folded == {}) && ItemsLoad(env, store.Files(), items[..i], b) && WellFormed(items[..i])
      invariant members == MembersOf(Described(items[..i])) && total == TotalSize(Described(items[..i]))
      invariant folded == Folded(env, Described(items[..i]))
    {
      var item := items[i];
      var e := CheckItem(env, store, items[..i], item, b, folded, total);
      assert items[..i + 1] == items[..i] + [item];
      if e.Some? {
        PrefixFails(env, store.Files(), items, b, i + 1);
        return Err(e.value), total;
      }
      ItemTaken(env, store.Files(), items[..i], item, b);
      folded := folded + {env.fold(item.path)};
      total := total + item.bytes;
      members := members[item.path := store.files[item.sha].data];
      i := i + 1;
    }
    assert items[..|items|] == items;
    r := Ok(members);
  }

  lemma PrefixFails(env: Env, objects: map<Sha, Object>, items: seq<Item>, b: Bounds, n: nat)
    requires n <= |items| && !ItemsLoad(env, objects, items[..n], b)
    ensures !ItemsLoad(env, objects, items, b)
  {
    if ItemsLoad(env, objects, items, b) {
      ItemsLoadPrefix(env, objects, items, b, n);
      assert false;
    }
  }

  lemma ItemTaken(env: Env, objects: map<Sha, Object>, before: seq<Item>, item: Item, b: Bounds)
    requires ItemsLoad(env, objects, before, b) && GoodItem(env, objects, item, b) && WellFormed(before)
    ensures item.Item? && item.bytes >= 0 && item.sha in objects && objects[item.sha].File? && WellFormed(before + [item])
    ensures MembersOf(Described(before + [item])) == MembersOf(Described(before))[item.path := objects[item.sha].data]
    ensures TotalSize(Described(before + [item])) == TotalSize(Described(before)) + item.bytes
    ensures Folded(env, Described(before + [item])) == Folded(env, Described(before)) + {env.fold(item.path)}
  {
    ItemsLoadStep(env, objects, before, item, b);
    hide MembersOf, TotalSize, Described, Folded, ItemsLoad;
    DescribedStep(before, item);
    FoldedStep(env, Described(before), Member(item.path, true, item.bytes, item.sha.data));
  }

  /** `_load_entry`. */
  method LoadEntry(env: Env, slot: Slot, archive: Sha, b: Bounds) returns (r: Result<map<string, Bytes>, Error>)
    ensures r.Ok? <==> Loads(env, slot, archive, b)
    ensures r.Ok? ==> r.value == MembersOf(Described(slot.manifest.items))
    ensures r == Err(Uncaught) <==> Escapes(env, slot, archive, b)
  {
    if !slot.Directory? { return Err(BadEntry); }
    if slot.manifest.TooDeep? { return Err(Uncaught); }
    if !IdentityOk(slot.manifest, archive, b) { return Err(BadManifest); }
    LoadsByItems(env, slot, archive, b);
    var total;
    r, total := LoadItems(env, slot.store, slot.manifest.items, b);
    if r.Ok? && slot.manifest.totalBytes != total { r := Err(BadTotal); }
  }

  lemma LoadsByItems(env: Env, slot: Slot, archive: Sha, b: Bounds)
    requires slot.Directory? && IdentityOk(slot.manifest, archive, b)
    ensures Loads(env, slot, archive, b) <==>
      ItemsLoad(env, slot.store.Files(), slot.manifest.items, b)
      && slot.manifest.totalBytes == TotalSize(Described(slot.manifest.items))
  {
  }

  // ----- building an entry -----

  /** The members that reading an archive gives. */
  function Content(a: Archive): map<string, Bytes> { if a.Zip? then MembersOf(a.members) else map[] }

  predicate Fits(env: Env, a: Archive) { env.manifestLength(Content(a)) <= MAX_MANIFEST }

  /** The manifest that populating the cache writes for some members, in whatever order. */
  predicate IsLedger(env: Env, m: Manifest, archive: Sha, members: map<string, Bytes>) {
    && m.Manifest? && m.length == env.manifestLength(members) && m.schemaOk && m.archive == Some(archive)
    && m.memberCount == |m.items| && WellFormed(m.items)
    && Honest(Described(m.items)) && MembersOf(Described(m.items)) == members
    && m.totalBytes == TotalSize(Described(m.items))
  }

  lemma HonestGrows(ms: seq<Member>, m: Member)
    requires Honest(ms) && m.supported && |m.data| == m.size && forall i :: 0 <= i < |ms| ==> ms[i].path != m.path
    ensures Honest(ms + [m])
  {
  }

  lemma MembersGrow(ms: seq<Member>, m: Member)
    requires Honest(ms) && m.path !in MembersOf(ms) && m.supported && |m.data| == m.size
    ensures Honest(ms + [m]) && MembersOf(ms + [m]) == MembersOf(ms)[m.path := m.data] && TotalSize(ms + [m]) == TotalSize(ms) + m.size
  {
    hide *;
    var longer := ms + [m];
    assert longer[..|ms|] == ms && longer[..|ms| + 1] == longer && longer[|ms|] == m;
    MembersStep(longer, |ms|);
    PathsListed(ms, m.path);
    HonestGrows(ms, m);
  }

  lemma LedgerGrows(items: seq<Item>, path: string, data: Bytes)
    requires WellFormed(items) && Honest(Described(items)) && path !in MembersOf(Described(items))
    ensures var longer := items + [Item(path, OfBytes(data), |data|)];
      && WellFormed(longer) && Honest(Described(longer))
      && MembersOf(Described(longer)) == MembersOf(Described(items))[path := data]
      && TotalSize(Described(longer)) == TotalSize(Described(items)) + |data|
  {
    var item := Item(path, OfBytes(data), |data|);
    assert WellFormed(items + [item]);
    hide MembersOf, TotalSize, Described, WellFormed, Honest;
    DescribedStep(items, item);
    MembersGrow(Described(items), Member(path, true, |data|, data));
  }

  lemma StoredGrows(objects: map<Sha, Object>, items: seq<Item>, path: string, data: Bytes)
    requires WellFormed(items) && Stored(objects, items)
    requires OfBytes(data) in objects ==> objects[OfBytes(data)] == File(data)
    ensures var longer := items + [Item(path, OfBytes(data), |data|)];
      && WellFormed(longer) && (OfBytes(data) in objects ==> Stored(objects, longer))
      && Stored(objects[OfBytes(data) := File(data)], longer)
  {
  }

  /** An entry as populating writes it: the true ledger, and every object in its place. */
  predicate IsTrue(env: Env, slot: Slot, archive: Sha, members: map<string, Bytes>) {
    && slot.Directory? && slot.store.Folder?
    && IsLedger(env, slot.manifest, archive, members) && Stored(slot.store.files, slot.manifest.items)
  }

  /** Writing the objects and the manifest. The order of the members does not matter here. */
  method BuildEntry(env: Env, archive: Sha, members: map<string, Bytes>) returns (slot: Slot)
    ensures IsTrue(env, slot, archive, members)
  {
    var objects: map<Sha, Object>, items: seq<Item>, total: nat := map[], [], 0;
    var todo := members.Keys;
    NothingBuilt();
    hide *;
    while todo != {}
      invariant todo <= members.Keys && WellFormed(items) && Honest(Described(items)) && Stored(objects, items)
      invariant MembersOf(Described(items)) == members - todo && total == TotalSize(Described(items))
      invariant AsNamed(objects)
      decreases |todo|
    {
      var path :| path in todo;
      var data := members[path];
      OneLess(members, todo, path);
      AddNamed(objects, data);
      LedgerGrows(items, path, data);
      StoredGrows(objects, items, path, data);
      if OfBytes(data) !in objects {
        objects := objects[OfBytes(data) := File(data)];
      }
      items := items + [Item(path, OfBytes(data), |data|)];
      total := total + |data|;
      todo := todo - {path};
    }
    assert members - {} == members;
    slot := Directory(Manifest(env.manifestLength(members), true, Some(archive), |items|, total, items), Folder(objects));
    LedgerBuilt(env, slot.manifest, archive, members);
    TrueBuilt(env, slot, archive, members);
  }

  lemma TrueBuilt(env: Env, slot: Slot, archive: Sha, members: map<string, Bytes>)
    requires slot.Directory? && slot.store.Folder?
    requires IsLedger(env, slot.manifest, archive, members) && Stored(slot.store.files, slot.manifest.items)
    ensures IsTrue(env, slot, archive, members)
  {
  }

  predicate AsNamed(objects: map<Sha, Object>) {
    forall sha :: sha in objects ==> sha.OfBytes? && objects[sha] == File(sha.data)
  }

  lemma AddNamed(objects: map<Sha, Object>, data: Bytes)
    requires AsNamed(objects)
    ensures AsNamed(objects[OfBytes(data) := File(data)])
    ensures OfBytes(data) in objects ==> objects[OfBytes(data)] == File(data)
  {
  }

  lemma OneLess(members: map<string, Bytes>, todo: set<string>, path: string)
    requires path in todo && todo <= members.Keys
    ensures path !in members - todo && members - (todo - {path}) == (members - todo)[path := members[path]]
    ensures todo - {path} <= members.Keys && |todo - {path}| < |todo|
  {
  }

  lemma NothingBuilt()
    ensures AsNamed(map[])
    ensures WellFormed([]) && Honest(Described([])) && Stored(map[], []) && MembersOf(Described([])) == map[] && TotalSize(Described([])) == 0
  {
  }

  lemma LedgerBuilt(env: Env, m: Manifest, archive: Sha, members: map<string, Bytes>)
    requires m.Manifest? && m.length == env.manifestLength(members) && m.schemaOk && m.archive == Some(archive)
    requires m.memberCount == |m.items| && WellFormed(m.items) && Honest(Described(m.items))
    requires MembersOf(Described(m.items)) == members && m.totalBytes == TotalSize(Described(m.items))
    ensures IsLedger(env, m, archive, members)
  {
  }

  /**
   An entry with its true manifest loads exactly when its objects are intact and the archive itself could be read
   under the same bounds; and then it gives the same members.
   */
  lemma LedgerLoads(env: Env, slot: Slot, a: Archive, b0: Bounds, b: Bounds)
    requires Readable(env, a, b0) && slot.Directory? && IsLedger(env, slot.manifest, OfArchive(a), Content(a))
    ensures Loads(env, slot, OfArchive(a), b) <==> Stored(slot.store.Files(), slot.manifest.items) && Readable(env, a, b) && Fits(env, a)
  {
    var ms, ns := a.members, Described(slot.manifest.items);
    ReadableIsHonest(env, a, b0);
    SameTotal(ms, ns);
    hide MembersOf, TotalSize, Described, Honest, Stored;
    assert a == Zip(ms);
    if Readable(env, a, b) { ReadableTransfers(env, ms, ns, b); }
    if Readable(env, Zip(ns), b) { ReadableTransfers(env, ns, ms, b); }
  }

  // ----- what bounds do not decide -----

  /** What a list must be for some bounds to let it be read. */
  predicate Listable(env: Env, ms: seq<Member>) {
    && NoCollision(env, Paths(ms))
    && forall i :: 0 <= i < |ms| ==> env.canonical(ms[i].path) && ms[i].supported && |ms[i].data| == ms[i].size
  }

  /** Bounds that just hold a list. */
  function Roomy(ms: seq<Member>): Bounds { Bounds(|ms|, TotalSize(ms), TotalSize(ms)) }

  lemma {:induction false} SizeInTotal(ms: seq<Member>, i: nat)
    requires i < |ms|
    ensures ms[i].size <= TotalSize(ms)
    decreases |ms|
  {
    if i < |ms| - 1 { SizeInTotal(ms[..|ms| - 1], i); }
  }

  lemma ListableIsReadable(env: Env, ms: seq<Member>)
    requires Listable(env, ms)
    ensures Readable(env, Zip(ms), Roomy(ms))
  {
    forall i | 0 <= i < |ms| ensures ms[i].size <= TotalSize(ms) { SizeInTotal(ms, i); }
    hide TotalSize, NoCollision, Paths;
  }

  lemma ReadableIsListable(env: Env, a: Archive, b: Bounds)
    requires Readable(env, a, b)
    ensures a.Zip? && Listable(env, a.members) && Honest(a.members)
  {
    ReadableIsHonest(env, a, b);
    hide NoCollision, Paths, TotalSize;
    assert forall i :: 0 <= i < |a.members| ==> GoodMember(env, a.members[i], b);
  }

  // ----- damage -----

  /** A manifest that no entry loads with: missing, unparsable, nested too deep, foreign, or not adding up. */
  predicate Broken(m: Manifest, a: Archive) {
    || !m.Manifest? || !m.schemaOk || m.archive != Some(OfArchive(a)) || m.memberCount != |m.items|
    || !WellFormed(m.items) || m.totalBytes != TotalSize(Described(m.items))
  }

  /** Some bounds let the archive be read, and its manifest fits. */
  predicate Cacheable(env: Env, a: Archive) { a.Zip? && Listable(env, a.members) && Fits(env, a) }

  /** Whatever bounds an entry loads under, it says what the archive says. */
  ghost predicate Faithful(env: Env, slot: Slot, a: Archive) {
    forall b :: Loads(env, slot, OfArchive(a), b) ==>
      Readable(env, a, b) && Fits(env, a) && MembersOf(Described(slot.manifest.items)) == Content(a)
  }

  /**
   Exactly the entries whose damage goes undetected: nothing authenticates the manifest, so they are those whose
   ledger adds up, over stored objects, and describes other members than the archive's.
   */
  lemma UndetectedEntries(env: Env, slot: Slot, a: Archive)
    ensures !Faithful(env, slot, a) <==>
      && slot.Directory? && !Broken(slot.manifest, a) && slot.manifest.length <= MAX_MANIFEST
      && Stored(slot.store.Files(), slot.manifest.items) && Listable(env, Described(slot.manifest.items))
      && !(Cacheable(env, a) && MembersOf(Described(slot.manifest.items)) == Content(a))
  {
    hide Listable, Stored, Described, MembersOf, TotalSize, WellFormed, Fits, Readable;
    if slot.Directory? && !Broken(slot.manifest, a) && slot.manifest.length <= MAX_MANIFEST
       && Stored(slot.store.Files(), slot.manifest.items) && Listable(env, Described(slot.manifest.items)) {
      var ms := Described(slot.manifest.items);
      ListableIsReadable(env, ms);
      RoomyMembers(ms);
      assert Loads(env, slot, OfArchive(a), Roomy(ms));
      if Faithful(env, slot, a) { ReadableIsListable(env, a, Roomy(ms)); }
    }
    if !Faithful(env, slot, a) {
      var b :| Loads(env, slot, OfArchive(a), b)
        && !(Readable(env, a, b) && Fits(env, a) && MembersOf(Described(slot.manifest.items)) == Content(a));
      var ms := Described(slot.manifest.items);
      ReadableIsListable(env, Zip(ms), b);
      if Cacheable(env, a) && MembersOf(ms) == Content(a) { SameMembersReadable(env, ms, a, b); }
    }
  }

  lemma RoomyMembers(ms: seq<Member>)
    ensures Roomy(ms).maxMembers == |ms|
  {
  }

  lemma SameMembersReadable(env: Env, ms: seq<Member>, a: Archive, b: Bounds)
    requires Readable(env, Zip(ms), b) && Cacheable(env, a) && MembersOf(ms) == Content(a)
    ensures Readable(env, a, b)
  {
    ReadableIsListable(env, Zip(ms), b);
    ListableIsReadable(env, a.members);
    ReadableIsListable(env, Zip(a.members), Roomy(a.members));
    assert a == Zip(a.members);
    hide Readable, Listable, Honest, MembersOf;
    ReadableTransfers(env, ms, a.members, b);
  }

  /** What entries are as long as nobody writes a manifest that adds up: a broken manifest or the true one, and any objects. */
  predicate Sound(env: Env, slot: Slot, a: Archive) {
    slot.Directory? ==>
      Broken(slot.manifest, a) || (Cacheable(env, a) && IsLedger(env, slot.manifest, OfArchive(a), Content(a)))
      || slot.manifest.length > MAX_MANIFEST
  }

  /** However its objects are changed, exchanged or lost, such an entry never gives anything but the archive's members. */
  lemma SoundIsFaithful(env: Env, slot: Slot, a: Archive)
    requires Sound(env, slot, a)
    ensures Faithful(env, slot, a)
  {
    UndetectedEntries(env, slot, a);
    hide Listable, Stored, Described, MembersOf, TotalSize, WellFormed, Fits, Readable, Faithful, Broken, Cacheable;
  }

  // ----- the cache -----

  datatype Status = HitVerified | MissPopulated

  predicate SameAt(before: map<Sha, Slot>, now: map<Sha, Slot>, sha: Sha) {
    (sha in now <==> sha in before) && (sha in now ==> now[sha] == before[sha])
  }

  ghost predicate AllSound(env: Env, entries: map<Sha, Slot>) {
    forall a :: OfArchive(a) in entries ==> Sound(env, entries[OfArchive(a)], a)
  }

  /** A reading, or something that happens to the entry of an archive from outside. */
  datatype Event =
    | Reading(archive: Archive, bounds: Bounds)
    | ObjectsChanged(archive: Archive, store: Store)
    | ManifestBroken(archive: Archive, manifest: Manifest)
    | BecameFile(archive: Archive)
    | BecameLink(archive: Archive)
    | Removed(archive: Archive)

  /** A link is in the place of an archive's entry, or loading the entry raises what nobody catches. */
  predicate Blocks(env: Env, entries: map<Sha, Slot>, a: Archive, b: Bounds) {
    OfArchive(a) in entries && (entries[OfArchive(a)].Reparse? || Escapes(env, entries[OfArchive(a)], OfArchive(a), b))
  }

  /** What an event makes of the entries. A reading keeps an entry that blocks it or loads, and rebuilds any other. */
  ghost predicate Follows(env: Env, e: Event, before: map<Sha, Slot>, now: map<Sha, Slot>) {
    var digest := OfArchive(e.archive);
    && (forall sha :: sha != digest ==> SameAt(before, now, sha))
    && match e
       case Reading(a, b) =>
         if Blocks(env, before, a, b) || (digest in before && Loads(env, before[digest], digest, b)) then now == before
         else (digest in now <==> Readable(env, a, b)) && (digest in now ==> IsTrue(env, now[digest], digest, Content(a)))
       case ObjectsChanged(_, store) =>
         now == if digest in before && before[digest].Directory? then before[digest := before[digest].(store := store)] else before
       case ManifestBroken(_, manifest) =>
         now == if digest in before && before[digest].Directory? then before[digest := before[digest].(manifest := manifest)] else before
       case BecameFile(_) => now == before[digest := OtherFile]
       case BecameLink(_) => now == before[digest := Reparse]
       case Removed(_) => now == before - {digest}
  }

  class Cache {
    const env: Env
    var entries: map<Sha, Slot>
    var quarantine: seq<Slot>

    constructor (env: Env)
      ensures this.env == env && entries == map[] && quarantine == [] && Valid()
    {
      this.env, entries, quarantine := env, map[], [];
    }

    ghost predicate Valid()
      reads this
    {
      AllSound(env, entries)
    }

    /** The entry of an archive is present and passes verification. */
    predicate Hits(a: Archive, b: Bounds)
      reads this
    {
      OfArchive(a) in entries && Loads(env, entries[OfArchive(a)], OfArchive(a), b)
    }

    /** Something is in the way of the call: it raises an error, and leaves the entry as it is. */
    predicate InTheWay(a: Archive, b: Bounds)
      reads this
    {
      Blocks(env, entries, a, b)
    }

    /**
     `read_archive_members_cached`, for the digest of the archive itself. Where a link is in the entry's place, or its
     loading raises what nobody catches, the call raises and nothing changes. A hit gives what the entry's ledger
     says. Otherwise the call succeeds exactly when reading the archive does and its manifest fits, with the
     archive's members, and the bad entry is set aside and replaced.
     */
    method Read(a: Archive, b: Bounds) returns (r: Result<map<string, Bytes>, Error>, status: Status)
      modifies this`entries, this`quarantine
      ensures old(Valid()) ==> Valid()
      ensures old(InTheWay(a, b)) ==> r.Err? && entries == old(entries) && quarantine == old(quarantine)
      ensures r == Err(Uncaught) <==> old(OfArchive(a) in entries && Escapes(env, entries[OfArchive(a)], OfArchive(a), b))
      ensures old(Hits(a, b)) ==> (
        && r == Ok(MembersOf(Described(old(entries)[OfArchive(a)].manifest.items))) && status == HitVerified
        && entries == old(entries) && quarantine == old(quarantine))
      ensures !old(InTheWay(a, b)) && !old(Hits(a, b)) ==> (
        && (r.Ok? <==> Readable(env, a, b) && Fits(env, a))
        && (r.Ok? ==> r.value == Content(a) && Hits(a, b) && status == MissPopulated)
        && quarantine == old(quarantine) + (if OfArchive(a) in old(entries) then [old(entries)[OfArchive(a)]] else []))
      ensures Follows(env, Reading(a, b), old(entries), entries)
      // entries that nobody forged a manifest for
      ensures old(Valid()) && !old(InTheWay(a, b)) ==>
        (r.Ok? <==> Readable(env, a, b) && Fits(env, a)) && (r.Ok? ==> r.value == Content(a))
    {
      var digest := OfArchive(a);
      status := HitVerified;
      hide Loads, Readable, MembersOf, Described, Fits, Sound, IsLedger, Stored, AllSound, Escapes;
      if digest in entries {
        r := LoadEntry(env, entries[digest], digest, b);
        NoLinkLoads(env, entries[digest], digest, b);
        assert Blocks(env, entries, a, b) <==> entries[digest].Reparse? || r == Err(Uncaught);
        if r.Ok? {
          if Valid() { SoundLoad(env, entries, a, b); }
          return;
        }
        if r == Err(Uncaught) || entries[digest].Reparse? { return; }
        quarantine := quarantine + [entries[digest]];
        RemovedSound(env, entries, digest);
        entries := entries - {digest};
      }
      status := MissPopulated;
      r := ReadArchive(env, a, b);
      if r.Err? { return; }
      ReadableContent(env, a, b);
      var slot := BuildEntry(env, digest, r.value);
      BuiltIsSound(env, slot, a, b);
      BuiltIsClear(env, slot, a, b);
      LedgerLoads(env, slot, a, b, b);
      LedgerContent(env, slot.manifest, digest, Content(a));
      AddedSound(env, entries, a, slot);
      entries := entries[digest := slot];
      r := LoadEntry(env, slot, digest, b);
    }

    /** Something happens to the entry of an archive from outside. */
    method Happen(e: Event)
      requires Valid() && !e.Reading? && (e.ManifestBroken? ==> Broken(e.manifest, e.archive))
      modifies this`entries
      ensures Valid() && Follows(env, e, old(entries), entries)
    {
      hide Sound, AllSound, Broken;
      var digest := OfArchive(e.archive);
      match e {
        case ObjectsChanged(a, store) =>
          if digest in entries && entries[digest].Directory? {
            OtherStoreSound(env, entries, a, store);
            entries := entries[digest := entries[digest].(store := store)];
          }
        case ManifestBroken(a, manifest) =>
          if digest in entries && entries[digest].Directory? {
            OtherManifestSound(env, entries, a, manifest);
            entries := entries[digest := entries[digest].(manifest := manifest)];
          }
        case BecameFile(a) =>
          NoEntrySound(env, entries, a, OtherFile);
          entries := entries[digest := OtherFile];
        case BecameLink(a) =>
          NoEntrySound(env, entries, a, Reparse);
          entries := entries[digest := Reparse];
        case Removed(a) =>
          RemovedSound(env, entries, digest);
          entries := entries - {digest};
      }
    }
  }

  lemma OtherStoreSound(env: Env, entries: map<Sha, Slot>, a: Archive, store: Store)
    requires AllSound(env, entries) && OfArchive(a) in entries && entries[OfArchive(a)].Directory?
    ensures AllSound(env, entries[OfArchive(a) := entries[OfArchive(a)].(store := store)])
  {
    AddedSound(env, entries, a, entries[OfArchive(a)].(store := store));
  }

  lemma OtherManifestSound(env: Env, entries: map<Sha, Slot>, a: Archive, manifest: Manifest)
    requires AllSound(env, entries) && OfArchive(a) in entries && entries[OfArchive(a)].Directory? && Broken(manifest, a)
    ensures AllSound(env, entries[OfArchive(a) := entries[OfArchive(a)].(manifest := manifest)])
  {
    AddedSound(env, entries, a, entries[OfArchive(a)].(manifest := manifest));
  }

  lemma NoEntrySound(env: Env, entries: map<Sha, Slot>, a: Archive, slot: Slot)
    requires AllSound(env, entries) && !slot.Directory?
    ensures AllSound(env, entries[OfArchive(a) := slot])
  {
    AddedSound(env, entries, a, slot);
  }

  lemma BuiltIsClear(env: Env, slot: Slot, a: Archive, b: Bounds)
    requires IsTrue(env, slot, OfArchive(a), Content(a))
    ensures slot.Directory? && slot.store.Folder? && slot.manifest.Manifest? && !Escapes(env, slot, OfArchive(a), b)
  {
  }

  lemma NoLinkLoads(env: Env, slot: Slot, archive: Sha, b: Bounds)
    ensures Loads(env, slot, archive, b) ==> slot.Directory?
  {
  }

  lemma SoundLoad(env: Env, entries: map<Sha, Slot>, a: Archive, b: Bounds)
    requires AllSound(env, entries) && OfArchive(a) in entries && Loads(env, entries[OfArchive(a)], OfArchive(a), b)
    ensures Readable(env, a, b) && Fits(env, a) && MembersOf(Described(entries[OfArchive(a)].manifest.items)) == Content(a)
  {
    SoundIsFaithful(env, entries[OfArchive(a)], a);
    hide Loads, Readable, Fits, MembersOf, Described;
  }

  lemma RemovedSound(env: Env, entries: map<Sha, Slot>, sha: Sha)
    ensures AllSound(env, entries) ==> AllSound(env, entries - {sha})
  {
    hide Sound;
  }

  lemma AddedSound(env: Env, entries: map<Sha, Slot>, a: Archive, slot: Slot)
    requires Sound(env, slot, a)
    ensures AllSound(env, entries) || AllSound(env, entries - {OfArchive(a)}) ==> AllSound(env, entries[OfArchive(a) := slot])
  {
    hide Sound;
    var now := entries[OfArchive(a) := slot];
    if AllSound(env, entries) || AllSound(env, entries - {OfArchive(a)}) {
      forall x | OfArchive(x) in now ensures Sound(env, now[OfArchive(x)], x) {
        if x != a { assert OfArchive(x) in entries - {OfArchive(a)} && OfArchive(x) in entries; }
      }
    }
  }

  lemma BuiltIsSound(env: Env, slot: Slot, a: Archive, b: Bounds)
    requires slot.Directory? && Readable(env, a, b) && IsLedger(env, slot.manifest, OfArchive(a), Content(a))
    ensures Sound(env, slot, a)
  {
    ReadableIsListable(env, a, b);
    hide Listable, Honest, Readable, MembersOf, Described, TotalSize, WellFormed, Content;
  }

  lemma ReadableContent(env: Env, a: Archive, b: Bounds)
    requires Readable(env, a, b)
    ensures a.Zip? && MembersOf(a.members) == Content(a)
  {
  }

  lemma LedgerContent(env: Env, m: Manifest, archive: Sha, members: map<string, Bytes>)
    requires IsLedger(env, m, archive, members)
    ensures m.Manifest? && WellFormed(m.items) && MembersOf(Described(m.items)) == members
  {
  }

  // ----- runs -----

  /** What can be in the way of some call. */
  predicate Obstacle(slot: Slot) { slot.Reparse? || (slot.Directory? && (slot.manifest.TooDeep? || slot.store.NoFolder?)) }

  /** The event may put something in the way. */
  predicate Obstructs(e: Event) {
    e.BecameLink? || (e.ManifestBroken? && e.manifest.TooDeep?) || (e.ObjectsChanged? && e.store.NoFolder?)
  }

  /** The event takes away whatever was in the way. */
  predicate Clears(e: Event) { e.BecameFile? || e.Removed? }

  /** Among the first `n` events one has put something in the way of an archive's entry, and none has cleared it since. */
  predicate ObstructedBy(events: seq<Event>, a: Archive, n: nat)
    requires n <= |events|
  {
    n > 0 && ((events[n - 1].archive == a && Obstructs(events[n - 1]))
              || (ObstructedBy(events, a, n - 1) && !(events[n - 1].archive == a && Clears(events[n - 1]))))
  }

  predicate ObstacleAt(entries: map<Sha, Slot>, a: Archive) { OfArchive(a) in entries && Obstacle(entries[OfArchive(a)]) }

  ghost predicate ObstaclesExplained(entries: map<Sha, Slot>, events: seq<Event>, n: nat)
    requires n <= |events|
  {
    forall a :: ObstacleAt(entries, a) ==> ObstructedBy(events, a, n)
  }

  lemma BlocksIsObstacle(env: Env, entries: map<Sha, Slot>, a: Archive, b: Bounds)
    ensures Blocks(env, entries, a, b) ==> ObstacleAt(entries, a)
  {
  }

  /** Events put things in the way, readings do not. */
  lemma ObstacleFollows(env: Env, e: Event, before: map<Sha, Slot>, now: map<Sha, Slot>, a: Archive)
    requires Follows(env, e, before, now) && ObstacleAt(now, a)
    ensures (e.archive == a && Obstructs(e)) || (ObstacleAt(before, a) && !(e.archive == a && Clears(e)))
  {
    hide Loads, IsLedger, Stored, Readable, Content, Escapes;
    if a != e.archive { assert SameAt(before, now, OfArchive(a)); }
    if IsTrue(env, now[OfArchive(a)], OfArchive(a), Content(a)) { TrueIsClear(env, now[OfArchive(a)], a); }
  }

  lemma TrueIsClear(env: Env, slot: Slot, a: Archive)
    requires IsTrue(env, slot, OfArchive(a), Content(a))
    ensures !Obstacle(slot)
  {
  }

  lemma ObstaclesFollow(env: Env, events: seq<Event>, n: nat, before: map<Sha, Slot>, now: map<Sha, Slot>)
    requires n < |events| && Follows(env, events[n], before, now) && ObstaclesExplained(before, events, n)
    ensures ObstaclesExplained(now, events, n + 1)
  {
    hide Follows, ObstacleAt, Obstructs, Clears;
    forall a | ObstacleAt(now, a) ensures ObstructedBy(events, a, n + 1) { ObstacleFollows(env, events[n], before, now, a); }
  }

  /** What a reading gives, unless something is in the way. */
  predicate Agrees(env: Env, e: Event, blocked: bool, r: Option<Result<map<string, Bytes>, Error>>)
    requires e.Reading?
  {
    && r.Some? && (r.value.Ok? <==> !blocked && Readable(env, e.archive, e.bounds) && Fits(env, e.archive))
    && (r.value.Ok? ==> r.value.value == Content(e.archive))
  }

  /** Each state of the cache follows from the one before by its event. */
  ghost predicate History(env: Env, events: seq<Event>, states: seq<map<Sha, Slot>>)
    requires |states| <= |events| + 1
  {
    states != [] && states[0] == map[] && forall i :: 0 <= i < |states| - 1 ==> Follows(env, events[i], states[i], states[i + 1])
  }

  lemma HistoryGrows(env: Env, events: seq<Event>, states: seq<map<Sha, Slot>>, now: map<Sha, Slot>)
    requires 0 < |states| <= |events| && History(env, events, states)
    requires Follows(env, events[|states| - 1], states[|states| - 1], now)
    ensures History(env, events, states + [now])
  {
    hide Follows;
    var longer := states + [now];
    forall i | 0 <= i < |longer| - 1 ensures Follows(env, events[i], longer[i], longer[i + 1]) {
      if i < |states| - 1 { assert longer[i + 1] == states[i + 1]; }
    }
  }

  /** If event `i` is a reading, it agrees with the archive, unless something was put in its way. */
  predicate AgreesAt(env: Env, events: seq<Event>, i: nat, entries: map<Sha, Slot>, r: Option<Result<map<string, Bytes>, Error>>)
    requires i < |events|
  {
    events[i].Reading? ==>
      var blocked := Blocks(env, entries, events[i].archive, events[i].bounds);
      Agrees(env, events[i], blocked, r) && (blocked ==> ObstructedBy(events, events[i].archive, i))
  }

  lemma NothingHappened(env: Env, events: seq<Event>)
    ensures History(env, events, [map[]]) && ObstaclesExplained(map[], events, 0)
  {
  }

  lemma BlockedByEvent(env: Env, entries: map<Sha, Slot>, events: seq<Event>, n: nat, a: Archive, b: Bounds)
    requires n <= |events| && ObstaclesExplained(entries, events, n)
    ensures Blocks(env, entries, a, b) ==> ObstructedBy(events, a, n)
  {
    BlocksIsObstacle(env, entries, a, b);
  }

  /**
   Over any run of readings, between which objects are changed in any way, manifests are lost or broken, and entries
   are removed or replaced by files or links: every reading gives what the archive gives, unless something is in the
   way, and that some event has put there.
   */
  method Run(env: Env, events: seq<Event>)
    returns (results: seq<Option<Result<map<string, Bytes>, Error>>>, ghost states: seq<map<Sha, Slot>>)
    requires forall i :: 0 <= i < |events| && events[i].ManifestBroken? ==> Broken(events[i].manifest, events[i].archive)
    ensures |results| == |events| && |states| == |events| + 1 && History(env, events, states)
    ensures forall i :: 0 <= i < |events| ==> AgreesAt(env, events, i, states[i], results[i])
  {
    hide Readable, Fits, Content, Loads, Escapes, AllSound, Follows, Broken, MembersOf, Described, History, ObstaclesExplained, Blocks;
    var cache := new Cache(env);
    results, states := [], [map[]];
    NothingHappened(env, events);
    for i := 0 to |events|
      invariant |results| == i && |states| == i + 1 && cache.env == env && cache.Valid() && fresh(cache)
      invariant History(env, events, states) && states[i] == cache.entries && ObstaclesExplained(cache.entries, events, i)
      invariant forall j :: 0 <= j < i ==> AgreesAt(env, events, j, states[j], results[j])
    {
      var e := events[i];
      var result: Option<Result<map<string, Bytes>, Error>> := None;
      if e.Reading? {
        BlockedByEvent(env, cache.entries, events, i, e.archive, e.bounds);
        var r, _ := cache.Read(e.archive, e.bounds);
        assert e == Reading(e.archive, e.bounds);
        result := Some(r);
      } else {
        cache.Happen(e);
      }
      assert AgreesAt(env, events, i, states[i], result);
      hide AgreesAt;
      HistoryGrows(env, events, states, cache.entries);
      ObstaclesFollow(env, events, i, states[i], cache.entries);
      results, states := results + [result], states + [cache.entries];
    }
  }

  // ----- a forged manifest -----

  function RenamedEntry(a: Archive, path: string, data: Bytes): Slot {
    Directory(Manifest(0, true, Some(OfArchive(a)), 1, |data|, [Item(path, OfBytes(data), |data|)]),
              Folder(map[OfBytes(data) := File(data)]))
  }

  lemma RenamedLoads(env: Env, a: Archive, path: string, data: Bytes, b: Bounds)
    requires env.canonical(path) && b.maxMembers >= 1 && |data| <= b.maxMemberBytes && |data| <= b.maxTotalBytes
    ensures Loads(env, RenamedEntry(a, path, data), OfArchive(a), b)
    ensures MembersOf(Described(RenamedEntry(a, path, data).manifest.items)) == map[path := data]
  {
    var m := Member(path, true, |data|, data);
    assert Described(RenamedEntry(a, path, data).manifest.items) == [m];
    OneMember(m);
  }

  lemma OneMember(m: Member)
    ensures TotalSize([m]) == m.size && MembersOf([m]) == map[m.path := m.data]
  {
    assert [m][..0] == [];
    assert TotalSize([]) == 0 && MembersOf([]) == map[];
  }

  /**
   An archive with one member, and an entry in which only the member's path in the manifest was changed: the entry
   is not faithful, and the cached call serves the member under the wrong name.
   */
  method ServedUnderWrongName(env: Env, path: string, other: string, data: Bytes, b: Bounds)
    returns (r: Result<map<string, Bytes>, Error>)
    requires path != other && env.canonical(other) && b.maxMembers >= 1 && |data| <= b.maxMemberBytes && |data| <= b.maxTotalBytes
    ensures var a := Zip([Member(path, true, |data|, data)]);
      && r == Ok(map[other := data]) && Content(a) == map[path := data]
      && !Faithful(env, RenamedEntry(a, other, data), a)
  {
    var a := Zip([Member(path, true, |data|, data)]);
    OneMember(Member(path, true, |data|, data));
    RenamedLoads(env, a, other, data, b);
    assert other in map[other := data] && other !in Content(a);
    hide Loads, Readable, Fits, MembersOf, Described, AllSound, Content;
    var cache := new Cache(env);
    cache.entries := map[OfArchive(a) := RenamedEntry(a, other, data)];
    var status;
    r, status := cache.Read(a, b);
  }

  // ----- entries that no call gets past -----

  /**
   A manifest nested too deep: every call raises, under any bounds, and the entry stays, although the archive itself
   may be readable.
   */
  method TooDeepStays(env: Env, a: Archive, b: Bounds, c: Bounds)
    returns (first: Result<map<string, Bytes>, Error>, second: Result<map<string, Bytes>, Error>, cache: Cache)
    ensures fresh(cache) && first == second == Err(Uncaught) && cache.quarantine == []
  {
    hide Loads, Readable, Fits, MembersOf, Described, AllSound, Content, Follows;
    cache := new Cache(env);
    cache.entries := map[OfArchive(a) := Directory(TooDeep, Folder(map[]))];
    var status;
    first, status := cache.Read(a, b);
    second, status := cache.Read(a, c);
  }

  /** The true manifest of an archive with one member, and a plain file where its objects were: the call raises. */
  method PlainFileForObjects(env: Env, path: string, data: Bytes, b: Bounds)
    returns (r: Result<map<string, Bytes>, Error>, cache: Cache)
    requires env.canonical(path) && b.maxMembers >= 1 && |data| <= b.maxMemberBytes && |data| <= b.maxTotalBytes
    ensures var a := Zip([Member(path, true, |data|, data)]);
      && fresh(cache) && Readable(env, a, b) && r == Err(Uncaught) && cache.quarantine == []
  {
    var a := Zip([Member(path, true, |data|, data)]);
    OneMember(Member(path, true, |data|, data));
    cache := new Cache(env);
    var slot := Directory(RenamedEntry(a, path, data).manifest, NoFolder);
    assert Escapes(env, slot, OfArchive(a), b);
    hide Loads, Fits, MembersOf, Described, AllSound, Content, Follows, TotalSize;
    assert Readable(env, a, b);
    hide Readable;
    cache.entries := map[OfArchive(a) := slot];
    var status;
    r, status := cache.Read(a, b);
  }
}
