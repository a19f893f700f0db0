/** Runs of the media store: any interleaving of stores, staged uploads, aborts, and drives coming and going. */
module MediaRuns {
  import opened Word
  import opened Wrappers
  import opened MediaStore

  datatype Event =
    | Store(bytes: seq<byte>, free: map<Root, nat>, written: nat)
    | Stage(name: string, free: map<Root, nat>)
    | WriteChunk(name: string, chunk: seq<byte>, written: nat, late: bool)
    | Commit(name: string, synced: bool)
    | Drop(name: string)
    | Mount(root: Root)
    | Unmount(root: Root)
    | Restart

  /** The disk, and the uploads whose blob is alive. `broken` names those whose write was reported to have failed. */
  datatype State = State(disk: Disk, live: map<string, Upload>, broken: set<string>)

  /** Upload names are fresh, uploads are used only while alive, and a failed write is followed by nothing
      but the drop (every caller returns on the error). */
  ghost predicate Enabled(s: State, e: Event) {
    match e
    case Stage(name, _) => name !in s.live && forall root :: Staged(root, name) !in s.disk.files
    case WriteChunk(name, _, _, _) => name in s.live && name !in s.broken
    case Commit(name, _) => name in s.live && name !in s.broken
    case Drop(name) => name in s.live
    case _ => true
  }

  function Apply(c: Config, s: State, e: Event): State {
    match e
    case Store(bytes, free, written) => s.(disk := AfterStore(c, s.disk, bytes, free, written))
    case Stage(name, free) =>
      (match FirstReady(c, s.disk, free, 0)
       case None => s
       case Some(root) => State(s.disk.(files := s.disk.files[Staged(root, name) := []]),
                                s.live[name := Upload(root, [], 0, false)], s.broken))
    case WriteChunk(name, chunk, written, late) =>
      if name in s.live then AfterChunk(s, name, chunk, written, late) else s
    case Commit(name, synced) =>
      if name !in s.live then s
      else State(AfterCommit(c, s.disk, name, s.live[name], synced), s.live - {name}, s.broken - {name})
    case Drop(name) =>
      if name !in s.live then s
      else State(Removed(s.disk, Staged(s.live[name].root, name)), s.live - {name}, s.broken - {name})
    case Mount(root) => s.(disk := s.disk.(mounted := s.disk.mounted + {root}))
    case Unmount(root) => s.(disk := s.disk.(mounted := s.disk.mounted - {root}))
    case Restart => State(s.disk, map[], {}) // no destructor runs
  }

  function AfterChunk(s: State, name: string, chunk: seq<byte>, written: nat, late: bool): State
    requires name in s.live
  {
    var u := s.live[name];
    State(WrittenTo(s.disk, name, u, chunk, written),
          s.live[name := AfterWrite(s.disk, name, u, chunk, written, late)],
          if WriteOk(s.disk, name, u, chunk, written, late) then s.broken else s.broken + {name})
  }

  // ---- What every step keeps ----

  /** A slot's content hashes to its name, and its root is a configured one. */
  ghost predicate SlotOk(c: Config, d: Disk, p: Path) {
    p in d.files && p.Slot? ==> p.sha == c.hash(d.files[p]) && p.root in c.roots
  }

  /** A live upload has its staged file, which holds what was hashed, or after a failed write strictly less. */
  ghost predicate UploadOk(c: Config, s: State, name: string) {
    if name !in s.live then name !in s.broken
    else
      var u := s.live[name];
      var tmp := Staged(u.root, name);
      tmp in s.disk.files && u.root in c.roots &&
      if name in s.broken || u.lost then |s.disk.files[tmp]| < |u.hashed|
      else s.disk.files[tmp] == u.hashed && u.len == |u.hashed|
  }

  ghost predicate Inv(c: Config, s: State) {
    (forall p :: SlotOk(c, s.disk, p)) && (forall name :: UploadOk(c, s, name))
  }

  lemma StepKeeps(c: Config, s: State, e: Event)
    requires Inv(c, s) && Enabled(s, e)
    ensures Inv(c, Apply(c, s, e))
  {
    assert c.roots[0..] == c.roots;
    var s' := Apply(c, s, e);
    forall p
      ensures SlotOk(c, s'.disk, p)
    {
      assert SlotOk(c, s.disk, p);
      assert e.Commit? ==> UploadOk(c, s, e.name);
    }
    forall name
      ensures UploadOk(c, s', name)
    {
      assert UploadOk(c, s, name);
      if e.WriteChunk? && e.name == name {
        ChunkKeeps(c, s, name, e.chunk, e.written, e.late);
      }
    }
  }

  lemma ChunkKeeps(c: Config, s: State, name: string, chunk: seq<byte>, written: nat, late: bool)
    requires UploadOk(c, s, name) && name in s.live && name !in s.broken
    ensures UploadOk(c, AfterChunk(s, name, chunk, written, late), name)
  {
    assert chunk == [] ==> s.live[name].hashed + chunk == s.live[name].hashed;
    assert written < |chunk| ==> |Landed(chunk, written)| < |chunk|;
  }

  /** A stored file never changes and never goes away. */
  lemma SlotsPersist(c: Config, s: State, e: Event, p: Path)
    requires p in s.disk.files && p.Slot? && Inv(c, s) && Enabled(s, e)
    ensures p in Apply(c, s, e).disk.files
    ensures Apply(c, s, e).disk.files[p] == s.disk.files[p]
  {
    assert c.roots[0..] == c.roots;
    assert e.Commit? ==> UploadOk(c, s, e.name);
  }

  // ---- Runs ----

  function Run(c: Config, s: State, events: seq<Event>): State {
    if events == [] then s else Apply(c, Run(c, s, events[..|events| - 1]), events[|events| - 1])
  }

  ghost predicate Legal(c: Config, s: State, events: seq<Event>) {
    events == [] ||
    (Legal(c, s, events[..|events| - 1]) && Enabled(Run(c, s, events[..|events| - 1]), events[|events| - 1]))
  }

  lemma {:induction false} RunKeeps(c: Config, s: State, events: seq<Event>)
    requires Inv(c, s) && Legal(c, s, events)
    ensures Inv(c, Run(c, s, events))
    ensures forall p :: p in s.disk.files && p.Slot? ==>
              p in Run(c, s, events).disk.files && Run(c, s, events).disk.files[p] == s.disk.files[p]
  {
    hide Inv;
    if events != [] {
      var before := events[..|events| - 1];
      RunKeeps(c, s, before);
      StepKeeps(c, Run(c, s, before), events[|events| - 1]);
      forall p | p in s.disk.files && p.Slot?
        ensures p in Run(c, s, events).disk.files && Run(c, s, events).disk.files[p] == s.disk.files[p]
      {
        SlotsPersist(c, Run(c, s, before), events[|events| - 1], p);
      }
    }
  }

  /** The hash and root an operation reports, if it succeeds. */
  function Reported(c: Config, s: State, e: Event): Option<(Sha, Root)> {
    match e
    case Store(bytes, free, written) => Pair(c.hash(bytes), StoreRoot(c, s.disk, bytes, free, written))
    case Commit(name, synced) =>
      if name !in s.live then None
      else Pair(c.hash(s.live[name].hashed), CommitRoot(c, s.disk, name, s.live[name], synced))
    case _ => None
  }

  function Pair(sha: Sha, root: Option<Root>): Option<(Sha, Root)> {
    if root.Some? then Some((sha, root.value)) else None
  }

  lemma ReportedIsSlot(c: Config, s: State, e: Event)
    requires Inv(c, s) && Enabled(s, e) && Reported(c, s, e).Some?
    ensures var (sha, root) := Reported(c, s, e).value; Slot(root, sha) in Apply(c, s, e).disk.files
  {
    assert c.roots[0..] == c.roots;
  }

  /** Whatever a store or a commit reported resolves ever after, with any hint, while that root is present,
      and to bytes of that hash. */
  lemma ReportedResolves(c: Config, s: State, e: Event, later: seq<Event>, hint: Option<Root>)
    requires Inv(c, s) && Enabled(s, e) && Reported(c, s, e).Some?
    requires Legal(c, Apply(c, s, e), later)
    requires Reported(c, s, e).value.1 in Run(c, Apply(c, s, e), later).disk.mounted
    ensures var d := Run(c, Apply(c, s, e), later).disk;
            var sha := Reported(c, s, e).value.0;
            Resolve(c, d, sha, hint).Some? && c.hash(d.files[Resolve(c, d, sha, hint).value]) == sha
  {
    hide Apply, Run, Legal, Enabled, Reported, Resolve;
    ReportedIsSlot(c, s, e);
    StepKeeps(c, s, e);
    RunKeeps(c, Apply(c, s, e), later);
    var (sha, root) := Reported(c, s, e).value;
    var d := Run(c, Apply(c, s, e), later).disk;
    assert SlotOk(c, d, Slot(root, sha));
    assert SlotOk(c, d, Resolve(c, d, sha, hint).value);
  }

  // ---- Staging, and one copy per hash, while every root is present ----

  predicate AllMounted(c: Config, d: Disk) {
    forall root :: root in c.roots ==> root in d.mounted
  }

  /** Staging holds nothing but live uploads. (That every live upload has its file is part of `Inv`.) */
  ghost predicate OnlyLive(s: State) {
    forall root, name :: Staged(root, name) in s.disk.files ==> name in s.live && s.live[name].root == root
  }

  ghost predicate OneRoot(d: Disk) {
    forall a, b, sha :: Slot(a, sha) in d.files && Slot(b, sha) in d.files ==> a == b
  }

  /** The upload a step ends. */
  function Ends(e: Event): Option<string> {
    match e
    case Commit(name, _) => Some(name)
    case Drop(name) => Some(name)
    case _ => None
  }

  /** A step leaves a file behind in staging exactly when it ends an upload whose root is absent, or is a restart
      that finds an upload alive. */
  lemma LeakIff(c: Config, s: State, e: Event)
    requires Inv(c, s) && OnlyLive(s) && Enabled(s, e)
    ensures OnlyLive(Apply(c, s, e)) <==>
            !(Ends(e).Some? && s.live[Ends(e).value].root !in s.disk.mounted) && !(e.Restart? && s.live != map[])
  {
    var s' := Apply(c, s, e);
    if Ends(e).Some? {
      var name := Ends(e).value;
      assert UploadOk(c, s, name);
      var tmp := Staged(s.live[name].root, name);
      if s.live[name].root !in s.disk.mounted {
        assert tmp in s'.disk.files && name !in s'.live;
      } else {
        assert tmp !in s'.disk.files;
      }
    } else if e.Restart? && s.live != map[] {
      var name :| name in s.live;
      assert UploadOk(c, s, name);
      assert Staged(s.live[name].root, name) in s'.disk.files;
    }
  }

  /** Nothing the store does ever clears such a file away. */
  lemma LeakStays(c: Config, s: State, e: Event)
    requires !OnlyLive(s) && Enabled(s, e)
    ensures !OnlyLive(Apply(c, s, e))
  {
    var root, name :| Staged(root, name) in s.disk.files && !(name in s.live && s.live[name].root == root);
    assert Staged(root, name) in Apply(c, s, e).disk.files;
  }

  /** The hash a step files a new copy of, if it does. */
  function Files(c: Config, s: State, e: Event): Option<Sha> {
    match Reported(c, s, e)
    case Some((sha, root)) => if Slot(root, sha) in s.disk.files then None else Some(sha)
    case None => None
  }

  /** A step makes a second copy exactly when it files a hash that an absent root holds. */
  lemma SecondCopyIff(c: Config, s: State, e: Event)
    requires Inv(c, s) && OneRoot(s.disk) && Enabled(s, e)
    ensures OneRoot(Apply(c, s, e).disk) <==>
            !(Files(c, s, e).Some? && exists root ::
                Slot(root, Files(c, s, e).value) in s.disk.files && root !in s.disk.mounted)
  {
    assert c.roots[0..] == c.roots;
    var s' := Apply(c, s, e);
    assert e.Commit? ==> UploadOk(c, s, e.name);
    if Files(c, s, e).Some? {
      var (sha, root) := Reported(c, s, e).value;
      assert Slot(root, sha) in s'.disk.files;
      forall r | Slot(r, sha) in s.disk.files
        ensures r != root && r !in s.disk.mounted && Slot(r, sha) in s'.disk.files
      {
        assert SlotOk(c, s.disk, Slot(r, sha));
      }
    }
  }

  predicate NoRootLeaves(c: Config, events: seq<Event>) {
    forall i :: 0 <= i < |events| && events[i].Unmount? ==> events[i].root !in c.roots
  }

  /** While every configured root stays present, each hash lives on exactly one root, whatever the interleaving. */
  lemma {:induction false} AlwaysMounted(c: Config, s: State, events: seq<Event>)
    requires Inv(c, s) && OneRoot(s.disk) && AllMounted(c, s.disk) && Legal(c, s, events) && NoRootLeaves(c, events)
    ensures var s' := Run(c, s, events); Inv(c, s') && OneRoot(s'.disk) && AllMounted(c, s'.disk)
  {
    if events != [] {
      hide Inv, OneRoot, Files, Enabled;
      var before, e := events[..|events| - 1], events[|events| - 1];
      AlwaysMounted(c, s, before);
      var s1 := Run(c, s, before);
      StepKeeps(c, s1, e);
      SecondCopyIff(c, s1, e);
      RootsPresent(c, s1, e);
    }
  }

  /** Every restart of the run found no upload under way. */
  ghost predicate QuietRestarts(c: Config, s: State, events: seq<Event>) {
    forall i :: 0 <= i < |events| && events[i].Restart? ==> Run(c, s, events[..i]).live == map[]
  }

  /** Then staging holds nothing but live uploads exactly when every restart found none under way. */
  lemma {:induction false} StagingCleanIff(c: Config, s: State, events: seq<Event>)
    requires Inv(c, s) && OneRoot(s.disk) && AllMounted(c, s.disk) && Legal(c, s, events) && NoRootLeaves(c, events)
    requires OnlyLive(s)
    ensures OnlyLive(Run(c, s, events)) <==> QuietRestarts(c, s, events)
  {
    if events != [] {
      hide Inv, OneRoot, OnlyLive, Enabled, Apply, QuietRestarts;
      var n := |events| - 1;
      var before, e := events[..n], events[n];
      StagingCleanIff(c, s, before);
      AlwaysMounted(c, s, before);
      var s1 := Run(c, s, before);
      RootsPresent(c, s1, e);
      if OnlyLive(s1) {
        LeakIff(c, s1, e);
      } else {
        LeakStays(c, s1, e);
      }
      QuietSplits(c, s, events);
    }
  }

  lemma QuietSplits(c: Config, s: State, events: seq<Event>)
    requires events != []
    ensures QuietRestarts(c, s, events) <==>
            var n := |events| - 1;
            QuietRestarts(c, s, events[..n]) && (events[n].Restart? ==> Run(c, s, events[..n]).live == map[])
  {
    hide Run;
    var n := |events| - 1;
    assert forall i :: 0 <= i < n ==> events[..n][..i] == events[..i] && events[..n][i] == events[i];
  }

  function Empty(mounted: set<Root>): State {
    State(Disk(map[], mounted), map[], {})
  }

  ghost predicate StagingIsLive(s: State) {
    forall root, name :: Staged(root, name) in s.disk.files <==> name in s.live && s.live[name].root == root
  }

  /** From an empty store with every configured root present: the staged files are exactly the live uploads if and
      only if every restart found none under way. */
  lemma StagingIsLiveUploads(c: Config, mounted: set<Root>, events: seq<Event>)
    requires (forall r :: r in c.roots ==> r in mounted) && Legal(c, Empty(mounted), events) && NoRootLeaves(c, events)
    ensures StagingIsLive(Run(c, Empty(mounted), events)) <==> QuietRestarts(c, Empty(mounted), events)
  {
    hide Run, Legal, QuietRestarts;
    var s := Run(c, Empty(mounted), events);
    AlwaysMounted(c, Empty(mounted), events);
    StagingCleanIff(c, Empty(mounted), events);
    LiveAreStaged(c, s);
  }

  lemma LiveAreStaged(c: Config, s: State)
    requires Inv(c, s)
    ensures OnlyLive(s) <==> StagingIsLive(s)
  {
    forall name | name in s.live
      ensures Staged(s.live[name].root, name) in s.disk.files
    {
      assert UploadOk(c, s, name);
    }
  }

  lemma RootsPresent(c: Config, s: State, e: Event)
    requires Inv(c, s) && AllMounted(c, s.disk) && Enabled(s, e)
    requires e.Unmount? ==> e.root !in c.roots
    ensures AllMounted(c, Apply(c, s, e).disk)
    ensures Ends(e).Some? ==> s.live[Ends(e).value].root in s.disk.mounted
    ensures forall p :: p in s.disk.files && p.Slot? ==> p.root in s.disk.mounted
  {
    assert Ends(e).Some? ==> UploadOk(c, s, Ends(e).value);
    forall p | p in s.disk.files && p.Slot?
      ensures p.root in s.disk.mounted
    {
      assert SlotOk(c, s.disk, p);
    }
  }

  /** A commit that gets as far as the rename files the very bytes that were hashed exactly when no write of the
      upload was reported to have failed. Past such a report it would file strictly fewer bytes, under a name
      that fits them only if the two strings' hashes collide. */
  lemma CommitFilesWhatWasHashedIff(c: Config, s: State, name: string)
    requires Inv(c, s) && name in s.live && !s.live[name].lost
    requires IsFile(s.disk, Staged(s.live[name].root, name))
    requires RootContaining(c, s.disk, c.hash(s.live[name].hashed), 0).None?
    ensures var u := s.live[name];
            var slot := Slot(u.root, c.hash(u.hashed));
            var s' := Apply(c, s, Commit(name, true));
            slot in s'.disk.files &&
            (s'.disk.files[slot] == u.hashed <==> name !in s.broken) &&
            (name in s.broken ==> |s'.disk.files[slot]| < |u.hashed|) &&
            (SlotOk(c, s'.disk, slot) <==> c.hash(s'.disk.files[slot]) == c.hash(u.hashed))
  {
    assert UploadOk(c, s, name);
  }

  lemma SlotIsOk(c: Config, s: State, p: Path)
    requires Inv(c, s)
    ensures SlotOk(c, s.disk, p)
  {
  }

  /** Every stored file of the site's own store can be served: its name passes the serve route's check. */
  lemma StoredNamesAreHex(roots: seq<Root>, minFree: nat, s: State, p: Path)
    requires Inv(Sha256Store(roots, minFree), s) && p in s.disk.files && p.Slot?
    ensures IsSha256Hex(p.sha)
  {
    hide IsSha256Hex, Sha256Store, Inv;
    SlotIsOk(Sha256Store(roots, minFree), s, p);
    NamesAreHex(roots, minFree, s.disk.files[p]);
  }

  const ROOM: map<Root, nat> := map["a" := 1, "b" := 1]

  /** Such a leak: the drive goes while an upload is under way, and the upload is dropped. */
  lemma UnmountLeaks(hash: seq<byte> -> Sha)
    ensures var c := Config(["a"], 0, hash);
            var staged := Apply(c, Empty({"a"}), Stage("u", ROOM));
            var away := Apply(c, staged, Unmount("a"));
            Enabled(Empty({"a"}), Stage("u", ROOM)) && Enabled(away, Drop("u")) &&
            OnlyLive(away) && !OnlyLive(Apply(c, away, Drop("u")))
  {
    var c := Config(["a"], 0, hash);
    var staged := Apply(c, Empty({"a"}), Stage("u", ROOM));
    var away := Apply(c, staged, Unmount("a"));
    assert FirstReady(c, Disk(map[], {"a"}), ROOM, 0) == Some("a");
    assert Staged("a", "u") in Apply(c, away, Drop("u")).disk.files;
  }

  /** Such a second copy: the same bytes are stored again while the drive that holds them is away. */
  lemma UnmountDuplicates(hash: seq<byte> -> Sha, bytes: seq<byte>)
    ensures var c := Config(["a", "b"], 0, hash);
            var e := Store(bytes, ROOM, |bytes|);
            var once := Apply(c, Empty({"a", "b"}), e);
            OneRoot(once.disk) && !OneRoot(Apply(c, Apply(c, once, Unmount("a")), e).disk)
  {
    var c := Config(["a", "b"], 0, hash);
    var start := Empty({"a", "b"});
    assert FirstReady(c, start.disk, ROOM, 0) == Some("a");
    StoreFiles(c, start, bytes, ROOM, "a");
    var once := Apply(c, start, Store(bytes, ROOM, |bytes|));
    var away := Apply(c, once, Unmount("a"));
    assert FirstReady(c, away.disk, ROOM, 0) == FirstReady(c, away.disk, ROOM, 1) == Some("b");
    StoreFiles(c, away, bytes, ROOM, "b");
  }

  /** A store of a hash no present root holds adds exactly its slot on the first ready root. */
  lemma StoreFiles(c: Config, s: State, bytes: seq<byte>, free: map<Root, nat>, root: Root)
    requires FirstReady(c, s.disk, free, 0) == Some(root)
    requires forall r :: r in c.roots ==> !IsFile(s.disk, Slot(r, c.hash(bytes)))
    ensures forall r, sha :: Slot(r, sha) in Apply(c, s, Store(bytes, free, |bytes|)).disk.files <==>
                             Slot(r, sha) in s.disk.files || (r == root && sha == c.hash(bytes))
    ensures Apply(c, s, Store(bytes, free, |bytes|)).disk.mounted == s.disk.mounted
  {
    assert c.roots[0..] == c.roots;
    assert RootContaining(c, s.disk, c.hash(bytes), 0) == None;
  }
}
