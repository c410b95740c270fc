/** The change model of the watcher, as values: the hash store, the change
    detector, the initial population of the store, one timed sweep over all
    files, and the base-name matching of file events. The imperative watcher
    in module Watcher is proved against these functions. */
module ChangeModel {

  import opened Wrappers

  type Path = string

  type Bytes = seq<bv8>

  /** A SHA-256 digest: exactly 32 bytes. */
  type Digest = d: seq<bv8> | |d| == 32
    witness [0, 0, 0, 0, 0, 0, 0, 0, 0, 0, 0, 0, 0, 0, 0, 0,
             0, 0, 0, 0, 0, 0, 0, 0, 0, 0, 0, 0, 0, 0, 0, 0]

  /** The all-zero digest, Go's zero value for [32]byte: what a lookup of an absent key yields. */
  const Zero: Digest := [0, 0, 0, 0, 0, 0, 0, 0, 0, 0, 0, 0, 0, 0, 0, 0,
                         0, 0, 0, 0, 0, 0, 0, 0, 0, 0, 0, 0, 0, 0, 0, 0]

  /** The disk as one step sees it: a path reads either to its bytes or fails. */
  type FileSystem = Path -> Option<Bytes>

  /** Last digest seen per base name. */
  type Store = map<string, Digest>

  /** Reading a key of the store as Go reads a map: an absent key reads as
      the zero digest. */
  function Lookup(store: Store, name: string): Digest
  {
    if name in store then store[name] else Zero
  }

  /** Read a file and digest its contents. A read failure is reported as
      None, never as a digest of empty contents or as the zero digest. */
  function HashFile(fs: FileSystem, sha: Bytes -> Digest, file: Path): Option<Digest>
  {
    match fs(file)
    case None => None
    case Some(data) => Some(sha(data))
  }

  /** The outcome of a check: whether a change was reported, and the store afterwards. */
  datatype Check = Check(changed: bool, store: Store)

  /** The change detector on one file whose base name is `name` and whose
      read produced `hash`. */
  function Detect(store: Store, name: string, hash: Option<Digest>): (r: Check)
    // a read error reports nothing and leaves the store as it was
    ensures hash.None? ==> r == Check(false, store)
    // a successful read reports a change exactly when the stored digest differs
    ensures hash.Some? ==> (r.changed <==> Lookup(store, name) != hash.value)
    // after a successful read the store holds the digest just read
    ensures hash.Some? ==> Lookup(r.store, name) == hash.value
    // a change overwrites the one entry; no change leaves the store alone
    ensures r.changed ==> hash.Some? && r.store == store[name := hash.value]
    ensures !r.changed ==> r.store == store
    // every other entry is untouched, and nothing is ever removed
    ensures forall k :: k != name ==> Lookup(r.store, k) == Lookup(store, k)
    ensures store.Keys <= r.store.Keys
  {
    match hash
    case None => Check(false, store)
    case Some(d) =>
      if Lookup(store, name) != d then Check(true, store[name := d])
      else Check(false, store)
  }

  /** A second check of the same file with the same contents reports no
      change and leaves the store as the first check left it. */
  lemma DetectIdempotent(store: Store, name: string, hash: Option<Digest>)
    ensures var first := Detect(store, name, hash);
            Detect(first.store, name, hash) == Check(false, first.store)
  {
  }

  /** A failed read in between does not disturb the next check: it is
      compared against the last digest successfully read. */
  lemma ReadErrorPreservesBaseline(store: Store, name: string, hash: Option<Digest>)
    ensures Detect(Detect(store, name, None).store, name, hash) == Detect(store, name, hash)
  {
  }

  /** The initial hash store built from the file list: files are hashed in
      order, unreadable ones skipped, and each readable file's digest is
      stored under its base name, overwriting an earlier file's. */
  function Populate(files: seq<Path>, fs: FileSystem, sha: Bytes -> Digest, base: Path -> string)
    : (store: Store)
    // every entry is the digest of some readable watched file with that base name
    ensures forall k :: k in store ==>
              exists i :: 0 <= i < |files| && base(files[i]) == k &&
                          HashFile(fs, sha, files[i]) == Some(store[k])
    decreases |files|
  {
    if files == [] then map[]
    else
      var last := files[|files| - 1];
      var m := Populate(files[..|files| - 1], fs, sha, base);
      assert forall i :: 0 <= i < |files| - 1 ==> files[..|files| - 1][i] == files[i];
      match HashFile(fs, sha, last)
      case None => m
      case Some(d) => m[base(last) := d]
  }

  /** The keys of the initial store are exactly the base names of the readable files. */
  lemma {:induction false} PopulateKeys(files: seq<Path>, fs: FileSystem, sha: Bytes -> Digest,
                                        base: Path -> string, k: string)
    ensures k in Populate(files, fs, sha, base) <==>
            exists i :: 0 <= i < |files| && base(files[i]) == k && HashFile(fs, sha, files[i]).Some?
    decreases |files|
  {
    if files != [] {
      var n := |files| - 1;
      var prefix := files[..n];
      PopulateKeys(prefix, fs, sha, base, k);
      if k in Populate(files, fs, sha, base) {
        if !(base(files[n]) == k && HashFile(fs, sha, files[n]).Some?) {
          var i :| 0 <= i < |prefix| && base(prefix[i]) == k && HashFile(fs, sha, prefix[i]).Some?;
          assert files[i] == prefix[i];
        }
      } else {
        forall i | 0 <= i < |files| && base(files[i]) == k
          ensures HashFile(fs, sha, files[i]).None?
        {
          if i < n {
            assert files[i] == prefix[i];
          }
        }
      }
    }
  }

  /** The later readable file wins a base name: a readable file that no
      later readable file shares its base name with has its own digest in
      the initial store. */
  lemma {:induction false} PopulateLastWins(files: seq<Path>, fs: FileSystem, sha: Bytes -> Digest,
                                            base: Path -> string, i: nat)
    requires i < |files| && HashFile(fs, sha, files[i]).Some?
    requires forall j :: i < j < |files| && base(files[j]) == base(files[i]) ==>
               HashFile(fs, sha, files[j]).None?
    ensures base(files[i]) in Populate(files, fs, sha, base)
    ensures Populate(files, fs, sha, base)[base(files[i])] == HashFile(fs, sha, files[i]).value
    decreases |files|
  {
    var n := |files| - 1;
    if i < n {
      var prefix := files[..n];
      assert prefix[i] == files[i];
      forall j | i < j < |prefix| && base(prefix[j]) == base(prefix[i])
        ensures HashFile(fs, sha, prefix[j]).None?
      {
        assert prefix[j] == files[j];
      }
      PopulateLastWins(prefix, fs, sha, base, i);
      assert HashFile(fs, sha, files[n]).None? || base(files[n]) != base(files[i]);
    }
  }

  /** One timed sweep: the change detector applied to every file in list
      order, without stopping at the first change; `changed` is whether
      any check reported a change. */
  function Sweep(store: Store, files: seq<Path>, fs: FileSystem, sha: Bytes -> Digest,
                 base: Path -> string): (r: Check)
    ensures !r.changed ==> r.store == store
    ensures store.Keys <= r.store.Keys
    decreases |files|
  {
    if files == [] then Check(false, store)
    else
      var last := files[|files| - 1];
      var before := Sweep(store, files[..|files| - 1], fs, sha, base);
      var c := Detect(before.store, base(last), HashFile(fs, sha, last));
      Check(before.changed || c.changed, c.store)
  }

  /** A sweep refreshes every entry: afterwards the store reads exactly as
      the old store overwritten by a fresh population from the same disk. */
  lemma {:induction false} SweepRefreshes(store: Store, files: seq<Path>, fs: FileSystem,
                                          sha: Bytes -> Digest, base: Path -> string, k: string)
    ensures Lookup(Sweep(store, files, fs, sha, base).store, k) ==
            Lookup(store + Populate(files, fs, sha, base), k)
    decreases |files|
  {
    if files != [] {
      SweepRefreshes(store, files[..|files| - 1], fs, sha, base, k);
    }
  }

  /** Readable watched files that share a base name have equal digests; in
      particular this holds when no two watched files share a base name,
      and when a path is listed twice. */
  predicate ConsistentDigests(files: seq<Path>, fs: FileSystem, sha: Bytes -> Digest,
                              base: Path -> string)
  {
    forall i, j :: 0 <= i < j < |files| && base(files[i]) == base(files[j]) &&
                   HashFile(fs, sha, files[i]).Some? && HashFile(fs, sha, files[j]).Some? ==>
                   HashFile(fs, sha, files[i]) == HashFile(fs, sha, files[j])
  }

  /** When readable namesakes agree, every readable file has its own digest
      in the initial store. */
  lemma {:induction false} PopulateAgrees(files: seq<Path>, fs: FileSystem, sha: Bytes -> Digest,
                                          base: Path -> string, i: nat)
    requires ConsistentDigests(files, fs, sha, base)
    requires i < |files| && HashFile(fs, sha, files[i]).Some?
    ensures base(files[i]) in Populate(files, fs, sha, base)
    ensures Populate(files, fs, sha, base)[base(files[i])] == HashFile(fs, sha, files[i]).value
    decreases |files|
  {
    var n := |files| - 1;
    var last := files[n];
    if !(HashFile(fs, sha, last).Some? && base(last) == base(files[i])) {
      var prefix := files[..n];
      assert forall k :: 0 <= k < n ==> prefix[k] == files[k];
      PopulateAgrees(prefix, fs, sha, base, i);
    }
  }

  /** A readable file whose digest differs from what `store` holds for its base name. */
  predicate Stale(store: Store, file: Path, fs: FileSystem, sha: Bytes -> Digest, base: Path -> string)
  {
    HashFile(fs, sha, file).Some? && Lookup(store, base(file)) != HashFile(fs, sha, file).value
  }

  /** A sweep leaves alone every entry whose name no swept file has. */
  lemma SweepLeavesOthers(store: Store, files: seq<Path>, fs: FileSystem,
                          sha: Bytes -> Digest, base: Path -> string, name: string)
    requires forall i :: 0 <= i < |files| ==> base(files[i]) != name
    ensures Lookup(Sweep(store, files, fs, sha, base).store, name) == Lookup(store, name)
  {
    SweepRefreshes(store, files, fs, sha, base, name);
    PopulateKeys(files, fs, sha, base, name);
  }

  /** A sweep reports a change exactly when some readable file's digest
      differs from the one stored for it before the sweep: until the first
      reported change the store is still the one the sweep started from. */
  lemma {:induction false} SweepReportsStale(store: Store, files: seq<Path>, fs: FileSystem,
                                             sha: Bytes -> Digest, base: Path -> string)
    ensures Sweep(store, files, fs, sha, base).changed <==>
            exists i :: 0 <= i < |files| && Stale(store, files[i], fs, sha, base)
    decreases |files|
  {
    if files != [] {
      var n := |files| - 1;
      var prefix := files[..n];
      assert forall i :: 0 <= i < n ==> prefix[i] == files[i];
      SweepReportsStale(store, prefix, fs, sha, base);
      var before := Sweep(store, prefix, fs, sha, base);
      if !before.changed {
        assert before.store == store;
      }
      if exists i :: 0 <= i < |files| && Stale(store, files[i], fs, sha, base) {
        var i :| 0 <= i < |files| && Stale(store, files[i], fs, sha, base);
        if i < n {
          assert Stale(store, prefix[i], fs, sha, base);
        }
      }
    }
  }

  /** When readable namesakes agree, a second sweep over an unchanged disk
      reports no change and leaves the store as the first sweep left it. */
  lemma SweepIdempotent(store: Store, files: seq<Path>, fs: FileSystem,
                        sha: Bytes -> Digest, base: Path -> string)
    requires ConsistentDigests(files, fs, sha, base)
    ensures var first := Sweep(store, files, fs, sha, base);
            Sweep(first.store, files, fs, sha, base) == Check(false, first.store)
  {
    var first := Sweep(store, files, fs, sha, base);
    SweepReportsStale(first.store, files, fs, sha, base);
    forall i | 0 <= i < |files|
      ensures !Stale(first.store, files[i], fs, sha, base)
    {
      if HashFile(fs, sha, files[i]).Some? {
        SweepRefreshes(store, files, fs, sha, base, base(files[i]));
        PopulateAgrees(files, fs, sha, base, i);
      }
    }
  }

  /** Two watched files with the same base name and different readable
      contents make every sweep report a change, although nothing on disk
      changed: the entry they share is overwritten back and forth. With
      SweepIdempotent, a repeated sweep over an unchanged disk is quiet
      exactly when readable namesakes agree. */
  lemma CollidingFilesAlwaysChange(store: Store, files: seq<Path>, fs: FileSystem,
                                   sha: Bytes -> Digest, base: Path -> string, i: nat, j: nat)
    requires i < |files| && j < |files| && base(files[i]) == base(files[j])
    requires HashFile(fs, sha, files[i]).Some? && HashFile(fs, sha, files[j]).Some?
    requires HashFile(fs, sha, files[i]).value != HashFile(fs, sha, files[j]).value
    ensures Sweep(store, files, fs, sha, base).changed
  {
    SweepReportsStale(store, files, fs, sha, base);
    if !Stale(store, files[i], fs, sha, base) {
      assert Stale(store, files[j], fs, sha, base);
    }
  }

  /** The index of the first watched file whose base name equals the
      event's base name, if any. */
  function FirstMatch(files: seq<Path>, base: Path -> string, name: Path): (r: Option<nat>)
    ensures r.Some? ==> r.value < |files| && base(files[r.value]) == base(name)
    ensures r.Some? ==> forall j :: 0 <= j < r.value ==> base(files[j]) != base(name)
    ensures r.None? ==> forall j :: 0 <= j < |files| ==> base(files[j]) != base(name)
  {
    if files == [] then None
    else if base(name) == base(files[0]) then Some(0)
    else
      match FirstMatch(files[1..], base, name)
      case None => None
      case Some(i) => Some(i + 1)
  }
}
