/** The content-addressed media store: ordered roots, atomic in-memory stores, streaming uploads staged
    beside their target, and drives that come and go. */
module MediaStore {
  import opened Word
  import opened Wrappers
  import Fips180
  import Clearance

  type Root = string
  type Sha = string

  /** A file of the store, by where its name puts it under a root: the shard slot of a hash, the temporary
      file of an in-memory store, or a staged upload. */
  datatype Path =
    | Slot(root: Root, sha: Sha)
    | Temp(root: Root, sha: Sha)
    | Staged(root: Root, name: string)

  /** The files of every root, and the roots now present. An absent root keeps its files, unseen. */
  datatype Disk = Disk(files: map<Path, seq<byte>>, mounted: set<Root>)

  /** The configured roots, primary first, and the free-space margin. What is proved holds for any `hash`. */
  datatype Config = Config(roots: seq<Root>, minFree: nat, hash: seq<byte> -> Sha)

  /** `is_sha256_hex`: what the serve route demands of a name before it looks for the file. */
  predicate IsSha256Hex(s: string) {
    |s| == 64 && forall i :: 0 <= i < |s| ==> '0' <= s[i] <= '9' || 'a' <= s[i] <= 'f'
  }

  /** The site's own store: names are lower-case hex SHA-256. */
  function Sha256Store(roots: seq<Root>, minFree: nat): Config {
    Config(roots, minFree, (bytes: seq<byte>) => Clearance.ToHex(Fips180.Sha256(bytes)))
  }

  lemma {:induction false} HexChars(b: seq<byte>)
    ensures forall i :: 0 <= i < |Clearance.ToHex(b)| ==>
              '0' <= Clearance.ToHex(b)[i] <= '9' || 'a' <= Clearance.ToHex(b)[i] <= 'f'
  {
    if b != [] {
      HexChars(b[1..]);
      var first := [Clearance.HexChar(b[0] / 16), Clearance.HexChar(b[0] % 16)];
      assert Clearance.ToHex(b) == first + Clearance.ToHex(b[1..]);
    }
  }

  /** Every name the site's store gives passes the serve route's check. */
  lemma NamesAreHex(roots: seq<Root>, minFree: nat, bytes: seq<byte>)
    ensures IsSha256Hex(Sha256Store(roots, minFree).hash(bytes))
  {
    hide Fips180.Sha256, Clearance.ToHex;
    HexChars(Fips180.Sha256(bytes));
  }

  /** The check accepts exactly the names 32 bytes can have. */
  lemma IsSha256HexIff(s: string)
    ensures IsSha256Hex(s) <==> exists b: seq<byte> :: |b| == 32 && Clearance.ToHex(b) == s
  {
    hide Clearance.ToHex;
    if IsSha256Hex(s) {
      var b := FromHex(s, 32);
      assert |b| == 32 && Clearance.ToHex(b) == s;
    }
    if b: seq<byte> :| |b| == 32 && Clearance.ToHex(b) == s {
      HexChars(b);
    }
  }

  lemma {:induction false} FromHex(s: string, n: nat) returns (b: seq<byte>)
    requires |s| == 2 * n && forall i :: 0 <= i < |s| ==> '0' <= s[i] <= '9' || 'a' <= s[i] <= 'f'
    ensures |b| == n && Clearance.ToHex(b) == s
  {
    if n == 0 {
      return [];
    }
    var high := HexValue(s[0]);
    var low := HexValue(s[1]);
    var rest := FromHex(s[2..], n - 1);
    var first: byte := 16 * high + low;
    b := [first] + rest;
    assert first / 16 == high && first % 16 == low && b[1..] == rest;
    assert s == [s[0], s[1]] + s[2..];
  }

  lemma HexValue(c: char) returns (v: nat)
    requires '0' <= c <= '9' || 'a' <= c <= 'f'
    ensures v < 16 && Clearance.HexChar(v) == c
  {
    v := if c <= '9' then c as int - '0' as int else c as int - 'a' as int + 10;
  }

  predicate IsFile(d: Disk, p: Path) {
    p in d.files && p.root in d.mounted
  }

  // ---- File system calls ----

  function Removed(d: Disk, p: Path): Disk {
    if p.root in d.mounted then d.(files := d.files - {p}) else d
  }

  /** A write that got `written` bytes to the drive before it failed, or all of them. */
  function Landed(chunk: seq<byte>, written: nat): seq<byte> {
    if written < |chunk| then chunk[..written] else chunk
  }

  class FileSystem {
    var disk: Disk

    method Create(p: Path, bytes: seq<byte>, written: nat) returns (ok: bool)
      modifies this
      ensures ok <==> p.root in old(disk).mounted && written >= |bytes|
      ensures disk == if p.root in old(disk).mounted
                      then old(disk).(files := old(disk).files[p := Landed(bytes, written)])
                      else old(disk)
    {
      if p.root !in disk.mounted {
        return false;
      }
      disk := disk.(files := disk.files[p := Landed(bytes, written)]);
      ok := written >= |bytes|;
    }

    method Append(p: Path, bytes: seq<byte>, written: nat) returns (ok: bool)
      modifies this
      ensures ok <==> IsFile(old(disk), p) && written >= |bytes|
      ensures disk == Appended(old(disk), p, bytes, written)
    {
      if p !in disk.files || p.root !in disk.mounted {
        return false;
      }
      disk := disk.(files := disk.files[p := disk.files[p] + Landed(bytes, written)]);
      ok := written >= |bytes|;
    }

    method Rename(from: Path, to: Path) returns (ok: bool)
      requires from.root == to.root && from != to
      modifies this
      ensures ok <==> IsFile(old(disk), from)
      ensures disk == Renamed(old(disk), from, to)
    {
      if from !in disk.files || from.root !in disk.mounted {
        return false;
      }
      disk := disk.(files := disk.files[to := disk.files[from]] - {from});
      ok := true;
    }

    method Remove(p: Path)
      modifies this
      ensures disk == Removed(old(disk), p)
    {
      if p.root in disk.mounted {
        disk := disk.(files := disk.files - {p});
      }
    }
  }

  function Appended(d: Disk, p: Path, bytes: seq<byte>, written: nat): Disk {
    if IsFile(d, p) then d.(files := d.files[p := d.files[p] + Landed(bytes, written)]) else d
  }

  function Renamed(d: Disk, from: Path, to: Path): Disk {
    if IsFile(d, from) then d.(files := d.files[to := d.files[from]] - {from}) else d
  }

  // ---- Choosing and finding roots ----

  /** Present, and its free space known and above the margin. */
  predicate Ready(c: Config, d: Disk, free: map<Root, nat>, root: Root) {
    root in d.mounted && root in free && free[root] > c.minFree
  }

  /** The first configured root that is ready. */
  function FirstReady(c: Config, d: Disk, free: map<Root, nat>, from: nat): (r: Option<Root>)
    requires from <= |c.roots|
    ensures r.Some? ==> exists i :: from <= i < |c.roots| && c.roots[i] == r.value && Ready(c, d, free, r.value) &&
                                    forall j :: from <= j < i ==> !Ready(c, d, free, c.roots[j])
    ensures r.None? ==> forall i :: from <= i < |c.roots| ==> !Ready(c, d, free, c.roots[i])
    decreases |c.roots| - from
  {
    if from == |c.roots| then None
    else if Ready(c, d, free, c.roots[from]) then Some(c.roots[from])
    else FirstReady(c, d, free, from + 1)
  }

  /** The first configured root whose slot for `sha` is a visible file. */
  function RootContaining(c: Config, d: Disk, sha: Sha, from: nat): (r: Option<Root>)
    requires from <= |c.roots|
    ensures r.Some? ==> r.value in c.roots[from..] && IsFile(d, Slot(r.value, sha))
    ensures r.Some? ==> exists i :: from <= i < |c.roots| && c.roots[i] == r.value &&
                                    forall j :: from <= j < i ==> !IsFile(d, Slot(c.roots[j], sha))
    ensures r.None? ==> forall root :: root in c.roots[from..] ==> !IsFile(d, Slot(root, sha))
    decreases |c.roots| - from
  {
    if from == |c.roots| then None
    else if IsFile(d, Slot(c.roots[from], sha)) then Some(c.roots[from])
    else RootContaining(c, d, sha, from + 1)
  }

  /** The hinted root's slot if it is a file, else the first configured root's. */
  function Resolve(c: Config, d: Disk, sha: Sha, hint: Option<Root>): (r: Option<Path>)
    ensures r.Some? ==> IsFile(d, r.value) && r.value.Slot? && r.value.sha == sha
    ensures r.Some? <==> (hint.Some? && IsFile(d, Slot(hint.value, sha))) ||
                         exists root :: root in c.roots && IsFile(d, Slot(root, sha))
  {
    assert c.roots[0..] == c.roots;
    if hint.Some? && IsFile(d, Slot(hint.value, sha)) then Some(Slot(hint.value, sha))
    else match RootContaining(c, d, sha, 0)
      case None => None
      case Some(root) => Some(Slot(root, sha))
  }

  /** A visible file in the hinted root's slot is the answer; otherwise the answer is in the first configured root that
      has one. */
  lemma ResolveOrder(c: Config, d: Disk, sha: Sha, hint: Option<Root>)
    ensures hint.Some? && IsFile(d, Slot(hint.value, sha)) ==> Resolve(c, d, sha, hint) == Some(Slot(hint.value, sha))
    ensures !(hint.Some? && IsFile(d, Slot(hint.value, sha))) && Resolve(c, d, sha, hint).Some? ==>
              exists i :: 0 <= i < |c.roots| && Resolve(c, d, sha, hint) == Some(Slot(c.roots[i], sha)) &&
                          forall j :: 0 <= j < i ==> !IsFile(d, Slot(c.roots[j], sha))
  {
  }

  /** Where a write goes: to the first configured root that is present with more free space than the margin. */
  lemma WriteTargetIff(c: Config, d: Disk, free: map<Root, nat>, root: Root)
    ensures FirstReady(c, d, free, 0) == Some(root) <==>
            exists i :: 0 <= i < |c.roots| && c.roots[i] == root && HasRoom(c, d, free, root) &&
                        forall j :: 0 <= j < i ==> !HasRoom(c, d, free, c.roots[j])
  {
    assert forall r :: Ready(c, d, free, r) <==> HasRoom(c, d, free, r);
  }

  predicate HasRoom(c: Config, d: Disk, free: map<Root, nat>, root: Root) {
    root in d.mounted && root in free && free[root] >= c.minFree + 1
  }

  datatype RootStatus = RootStatus(path: Root, free: Option<nat>, isWriteTarget: bool, belowMargin: bool)

  ghost predicate ReadyBefore(c: Config, d: Disk, free: map<Root, nat>, i: nat)
    requires i <= |c.roots|
  {
    exists j :: 0 <= j < i && Ready(c, d, free, c.roots[j])
  }

  /** A panel row: the write target is the first ready root; an absent root reports no free space. */
  ghost predicate RowMeans(c: Config, d: Disk, free: map<Root, nat>, i: nat, row: RootStatus)
    requires i < |c.roots|
  {
    && row.path == c.roots[i]
    && (row.isWriteTarget <==> Ready(c, d, free, c.roots[i]) && !ReadyBefore(c, d, free, i))
    && row.free == (if row.path in d.mounted && row.path in free then Some(free[row.path]) else None)
    && (row.belowMargin <==> row.free.Some? && !Ready(c, d, free, row.path))
  }

  lemma RowStep(c: Config, d: Disk, free: map<Root, nat>, i: nat)
    requires i < |c.roots|
    ensures ReadyBefore(c, d, free, i + 1) <==> ReadyBefore(c, d, free, i) || Ready(c, d, free, c.roots[i])
    ensures !ReadyBefore(c, d, free, 0)
    ensures var root := c.roots[i];
            var known := if root in d.mounted && root in free then Some(free[root]) else None;
            RowMeans(c, d, free, i, RootStatus(root, known,
                                               !ReadyBefore(c, d, free, i) && known.Some? && known.value > c.minFree,
                                               known.Some? && known.value <= c.minFree))
  {
  }

  lemma TargetIsPick(c: Config, d: Disk, free: map<Root, nat>, rows: seq<RootStatus>)
    requires |rows| == |c.roots| && forall i :: 0 <= i < |rows| ==> RowMeans(c, d, free, i, rows[i])
    ensures FirstReady(c, d, free, 0).None? ==> forall i :: 0 <= i < |rows| ==> !rows[i].isWriteTarget
    ensures FirstReady(c, d, free, 0).Some? ==>
              exists i :: 0 <= i < |rows| && rows[i].isWriteTarget &&
                          FirstReady(c, d, free, 0) == Some(rows[i].path) &&
                          forall k :: 0 <= k < |rows| && rows[k].isWriteTarget ==> k == i
  {
    hide Ready;
    var pick := FirstReady(c, d, free, 0);
    if pick.Some? {
      var i :| 0 <= i < |c.roots| && c.roots[i] == pick.value && Ready(c, d, free, pick.value) &&
               forall j :: 0 <= j < i ==> !Ready(c, d, free, c.roots[j]);
      assert rows[i].isWriteTarget;
    }
  }

  // ---- The step each operation takes ----

  /** `lost`: an earlier write failed in the background, and the file handle has yet to say so. */
  datatype Upload = Upload(root: Root, hashed: seq<byte>, len: nat, lost: bool)

  /** The bytes all reach the drive; an empty chunk touches nothing. */
  predicate Lands(d: Disk, name: string, u: Upload, chunk: seq<byte>, written: nat) {
    chunk == [] || (!u.lost && IsFile(d, Staged(u.root, name)) && written >= |chunk|)
  }

  /** A write reports an earlier failure before anything else, and may leave its own to be reported later. */
  predicate WriteOk(d: Disk, name: string, u: Upload, chunk: seq<byte>, written: nat, late: bool) {
    chunk == [] || (!u.lost && (Lands(d, name, u, chunk, written) || late))
  }

  function WrittenTo(d: Disk, name: string, u: Upload, chunk: seq<byte>, written: nat): Disk {
    if chunk == [] || u.lost then d else Appended(d, Staged(u.root, name), chunk, written)
  }

  function AfterWrite(d: Disk, name: string, u: Upload, chunk: seq<byte>, written: nat, late: bool): Upload {
    Upload(u.root, u.hashed + chunk, if WriteOk(d, name, u, chunk, written, late) then u.len + |chunk| else u.len,
           if chunk == [] then u.lost else !u.lost && late && !Lands(d, name, u, chunk, written))
  }

  function AfterStore(c: Config, d: Disk, bytes: seq<byte>, free: map<Root, nat>, written: nat): Disk {
    var sha := c.hash(bytes);
    if RootContaining(c, d, sha, 0).Some? then d
    else match FirstReady(c, d, free, 0)
      case None => d
      case Some(root) =>
        var d' := d.(files := d.files[Temp(root, sha) := Landed(bytes, written)]);
        if written >= |bytes| then Renamed(d', Temp(root, sha), Slot(root, sha)) else d'
  }

  function StoreRoot(c: Config, d: Disk, bytes: seq<byte>, free: map<Root, nat>, written: nat): Option<Root> {
    var held := RootContaining(c, d, c.hash(bytes), 0);
    if held.Some? then held
    else if written >= |bytes| then FirstReady(c, d, free, 0)
    else None
  }

  /** Flush, which reports a lost write, and sync; then dedupe against every visible root, or rename into the slot.
      On failure the blob is dropped. */
  function AfterCommit(c: Config, d: Disk, name: string, u: Upload, synced: bool): Disk {
    var sha := c.hash(u.hashed);
    if u.lost || !synced || RootContaining(c, d, sha, 0).Some? then Removed(d, Staged(u.root, name))
    else Renamed(d, Staged(u.root, name), Slot(u.root, sha))
  }

  function CommitRoot(c: Config, d: Disk, name: string, u: Upload, synced: bool): Option<Root> {
    var held := RootContaining(c, d, c.hash(u.hashed), 0);
    if u.lost || !synced then None
    else if held.Some? then held
    else if IsFile(d, Staged(u.root, name)) then Some(u.root)
    else None
  }

  // ---- The store and its uploads, as objects ----

  class MediaStore {
    const config: Config

    constructor (config: Config)
      requires config.roots != []
      ensures this.config == config
    {
      this.config := config;
    }

    method FindRoot(fs: FileSystem, sha: Sha) returns (r: Option<Root>)
      ensures r == RootContaining(config, fs.disk, sha, 0)
    {
      var i := 0;
      while i < |config.roots|
        invariant 0 <= i <= |config.roots|
        invariant RootContaining(config, fs.disk, sha, 0) == RootContaining(config, fs.disk, sha, i)
      {
        if IsFile(fs.disk, Slot(config.roots[i], sha)) {
          return Some(config.roots[i]);
        }
        i := i + 1;
      }
      r := None;
    }

    method ResolvePath(fs: FileSystem, sha: Sha, hint: Option<Root>) returns (r: Option<Path>)
      ensures r == Resolve(config, fs.disk, sha, hint)
    {
      if hint.Some? && IsFile(fs.disk, Slot(hint.value, sha)) {
        return Some(Slot(hint.value, sha));
      }
      var root := FindRoot(fs, sha);
      r := if root.Some? then Some(Slot(root.value, sha)) else None;
    }

    method PickWriteRoot(fs: FileSystem, free: map<Root, nat>) returns (r: Option<Root>)
      ensures r == FirstReady(config, fs.disk, free, 0)
    {
      var i := 0;
      while i < |config.roots|
        invariant 0 <= i <= |config.roots|
        invariant FirstReady(config, fs.disk, free, 0) == FirstReady(config, fs.disk, free, i)
      {
        var root := config.roots[i];
        if root in fs.disk.mounted && root in free && free[root] > config.minFree {
          return Some(root);
        }
        i := i + 1;
      }
      r := None;
    }

    /** The panel marks at most one root, and that one is where a write would go. */
    method RootsStatus(fs: FileSystem, free: map<Root, nat>) returns (rows: seq<RootStatus>)
      ensures |rows| == |config.roots|
      ensures forall i :: 0 <= i < |rows| ==> RowMeans(config, fs.disk, free, i, rows[i])
      ensures FirstReady(config, fs.disk, free, 0).None? ==> forall i :: 0 <= i < |rows| ==> !rows[i].isWriteTarget
      ensures FirstReady(config, fs.disk, free, 0).Some? ==>
                exists i :: 0 <= i < |rows| && rows[i].isWriteTarget &&
                            FirstReady(config, fs.disk, free, 0) == Some(rows[i].path) &&
                            forall k :: 0 <= k < |rows| && rows[k].isWriteTarget ==> k == i
    {
      hide FirstReady, RowMeans;
      rows := [];
      var taken := false;
      for i := 0 to |config.roots|
        invariant |rows| == i
        invariant taken <==> ReadyBefore(config, fs.disk, free, i)
        invariant forall k :: 0 <= k < i ==> RowMeans(config, fs.disk, free, k, rows[k])
      {
        var root := config.roots[i];
        var present := root in fs.disk.mounted;
        var known := if present && root in free then Some(free[root]) else None;
        var below := present && known.Some? && known.value <= config.minFree;
        var target := !taken && present && known.Some? && known.value > config.minFree;
        RowStep(config, fs.disk, free, i);
        if target {
          taken := true;
        }
        rows := rows + [RootStatus(root, known, target, below)];
      }
      TargetIsPick(config, fs.disk, free, rows);
    }

    method Store(fs: FileSystem, bytes: seq<byte>, free: map<Root, nat>, written: nat)
      returns (sha: Sha, root: Option<Root>)
      modifies fs
      ensures sha == config.hash(bytes)
      ensures fs.disk == AfterStore(config, old(fs.disk), bytes, free, written)
      ensures root == StoreRoot(config, old(fs.disk), bytes, free, written)
    {
      sha := config.hash(bytes);
      root := FindRoot(fs, sha);
      if root.Some? {
        return;
      }
      root := PickWriteRoot(fs, free);
      if root.None? {
        return;
      }
      var tmp := Temp(root.value, sha);
      var ok := fs.Create(tmp, bytes, written);
      if ok {
        ok := fs.Rename(tmp, Slot(root.value, sha));
      }
      if !ok {
        root := None;
      }
    }

    /** Begin an upload on the root picked now; `name` is the fresh random name. */
    method Stage(fs: FileSystem, name: string, free: map<Root, nat>) returns (blob: StagedBlob?)
      modifies fs
      ensures var root := FirstReady(config, old(fs.disk), free, 0);
              (blob == null <==> root.None?) &&
              (blob == null ==> fs.disk == old(fs.disk)) &&
              (blob != null ==>
                 fresh(blob) && blob.Live() && blob.name == name && blob.Value() == Upload(root.value, [], 0, false) &&
                 fs.disk == old(fs.disk).(files := old(fs.disk).files[Staged(root.value, name) := []]))
    {
      var root := PickWriteRoot(fs, free);
      if root.None? {
        return null;
      }
      var _ := fs.Create(Staged(root.value, name), [], 0);
      blob := new StagedBlob(root.value, name);
    }
  }

  class StagedBlob {
    const writeRoot: Root
    const name: string
    var open: bool
    var hashed: seq<byte> // what the hasher has absorbed
    var len: nat
    var lost: bool // the file handle's unreported write error
    var committed: bool

    ghost predicate Live() reads this { open && !committed }

    function Value(): Upload reads this { Upload(writeRoot, hashed, len, lost) }

    constructor (root: Root, name: string)
      ensures Live() && this.name == name && Value() == Upload(root, [], 0, false)
    {
      writeRoot, this.name, open, hashed, len, lost, committed := root, name, true, [], 0, false, false;
    }

    /** Hash, then write through; the length counts the chunks whose write reported no failure. */
    method WriteChunk(fs: FileSystem, chunk: seq<byte>, written: nat, late: bool) returns (ok: bool)
      requires Live()
      modifies this`hashed, this`len, this`lost, fs
      ensures Live()
      ensures ok <==> WriteOk(old(fs.disk), name, old(Value()), chunk, written, late)
      ensures Value() == AfterWrite(old(fs.disk), name, old(Value()), chunk, written, late)
      ensures fs.disk == WrittenTo(old(fs.disk), name, old(Value()), chunk, written)
      ensures chunk == [] || old(lost) ==> fs.disk == old(fs.disk)
    {
      hashed := hashed + chunk;
      if chunk == [] {
        return true;
      }
      if lost {
        lost := false;
        return false;
      }
      var landed := fs.Append(Staged(writeRoot, name), chunk, written);
      lost := !landed && late;
      ok := landed || late;
      if ok {
        len := len + |chunk|;
      }
    }

    /** Commit consumes the blob: whatever happens, its destructor has run when this returns. */
    method Commit(store: MediaStore, fs: FileSystem, synced: bool) returns (sha: Sha, total: nat, root: Option<Root>)
      requires Live()
      modifies this, fs
      ensures !open
      ensures sha == store.config.hash(old(hashed)) && total == old(len)
      ensures fs.disk == AfterCommit(store.config, old(fs.disk), name, old(Value()), synced)
      ensures root == CommitRoot(store.config, old(fs.disk), name, old(Value()), synced)
    {
      sha, total, root := store.config.hash(hashed), len, None;
      open := false;
      if !lost && synced {
        root := store.FindRoot(fs, sha);
        if root.Some? {
          fs.Remove(Staged(writeRoot, name));
          committed := true;
        } else {
          var moved := fs.Rename(Staged(writeRoot, name), Slot(writeRoot, sha));
          if moved {
            committed := true;
            root := Some(writeRoot);
          }
        }
      }
      Drop(fs);
    }

    method Drop(fs: FileSystem)
      modifies fs
      ensures fs.disk == if committed then old(fs.disk) else Removed(old(fs.disk), Staged(writeRoot, name))
    {
      if !committed {
        fs.Remove(Staged(writeRoot, name));
      }
    }
  }
}
