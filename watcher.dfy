/** The watcher of watcher.go as state changed step by step: the initial
    hashing of the watched files, the change detector that updates the hash
    store in place, one tick of the timed watcher and the handling of one
    file event by the event-driven watcher. Each infinite loop of the source
    is modelled by one call per iteration; the disk is the `fs` argument of
    the step that reads it. */
module Watcher {

  import opened Wrappers
  import opened ChangeModel

  /** fsnotify's Create bit in an event's operation mask. */
  const CREATE: bv32 := 1

  /** Whether an event's operation mask has the Create bit set, whatever
      other bits it carries. */
  predicate HasCreate(ops: bv32)
    ensures HasCreate(ops) <==> ops % 2 == 1
  {
    ops & CREATE == CREATE
  }

  /** Hash the initial state of the watched files (hashFiles): unreadable
      files are skipped; the rest are stored under their base names. */
  method HashFiles(files: seq<Path>, fs: FileSystem, sha: Bytes -> Digest, base: Path -> string)
    returns (hashes: Store)
    ensures hashes == Populate(files, fs, sha, base)
    ensures forall k :: k in hashes <==>
              exists i :: 0 <= i < |files| && base(files[i]) == k && HashFile(fs, sha, files[i]).Some?
  {
    hashes := map[];
    for i := 0 to |files|
      invariant hashes == Populate(files[..i], fs, sha, base)
    {
      assert files[..i + 1][..i] == files[..i];
      var hash := HashFile(fs, sha, files[i]);
      if hash.None? {
        continue;
      }
      var name := base(files[i]);
      hashes := hashes[name := hash.value];
    }
    assert files[..|files|] == files;
    forall k
      ensures k in hashes <==>
              exists i :: 0 <= i < |files| && base(files[i]) == k && HashFile(fs, sha, files[i]).Some?
    {
      PopulateKeys(files, fs, sha, base, k);
    }
  }

  /** Subscribe to every watched file and to the directory holding it, so
      that both in-place writes and removal and re-creation are seen. */
  method Subscribe(files: seq<Path>, dir: Path -> Path) returns (watched: set<Path>)
    ensures forall i :: 0 <= i < |files| ==> files[i] in watched && dir(files[i]) in watched
    ensures forall p :: p in watched ==>
              exists i :: 0 <= i < |files| && (p == files[i] || p == dir(files[i]))
  {
    watched := {};
    for i := 0 to |files|
      invariant forall j :: 0 <= j < i ==> files[j] in watched && dir(files[j]) in watched
      invariant forall p :: p in watched ==>
                  exists j :: 0 <= j < i && (p == files[j] || p == dir(files[j]))
    {
      watched := watched + {files[i]};
      watched := watched + {dir(files[i])};
    }
  }

  /** The two detection strategies; a watcher runs exactly one of them. */
  datatype Mode = TimedMode | AutoMode

  /** One running watcher: its fixed file list, the digest and base-name
      functions it uses, the hash store it owns, the paths it is subscribed
      to, and how many notifications it has sent. */
  class Watcher {
    const mode: Mode
    const files: seq<Path>
    const sha: Bytes -> Digest
    const base: Path -> string
    var hashes: Store
    var watched: set<Path>
    var notifications: nat

    /** Start the timed watcher (watchTimed): hash every file once; no
        subscriptions are made. */
    constructor Timed(files: seq<Path>, fs: FileSystem, sha: Bytes -> Digest, base: Path -> string)
      ensures mode == TimedMode
      ensures this.files == files && this.sha == sha && this.base == base
      ensures hashes == Populate(files, fs, sha, base)
      ensures watched == {} && notifications == 0
    {
      var initial := HashFiles(files, fs, sha, base);
      mode := TimedMode;
      this.files := files;
      this.sha := sha;
      this.base := base;
      hashes := initial;
      watched := {};
      notifications := 0;
    }

    /** Start the event-driven watcher (watchAuto): hash every file once,
        then subscribe to every file and to the directory holding it. */
    constructor Auto(files: seq<Path>, fs: FileSystem, sha: Bytes -> Digest, base: Path -> string,
                     dir: Path -> Path)
      ensures mode == AutoMode
      ensures this.files == files && this.sha == sha && this.base == base
      ensures hashes == Populate(files, fs, sha, base)
      ensures forall i :: 0 <= i < |files| ==> files[i] in watched && dir(files[i]) in watched
      ensures forall p :: p in watched ==>
                exists i :: 0 <= i < |files| && (p == files[i] || p == dir(files[i]))
      ensures notifications == 0
    {
      var initial := HashFiles(files, fs, sha, base);
      var subscriptions := Subscribe(files, dir);
      mode := AutoMode;
      this.files := files;
      this.sha := sha;
      this.base := base;
      hashes := initial;
      watched := subscriptions;
      notifications := 0;
    }

    /** The change detector (fileChanged): re-hash one file and compare it
        with the stored digest for its base name, overwriting that entry
        when they differ. */
    method FileChanged(fs: FileSystem, file: Path) returns (changed: bool)
      modifies this`hashes
      ensures Check(changed, hashes) == Detect(old(hashes), base(file), HashFile(fs, sha, file))
    {
      var newHash := HashFile(fs, sha, file);
      if newHash.None? {
        return false;
      }
      var name := base(file);
      var oldHash := Lookup(hashes, name);
      if oldHash != newHash.value {
        hashes := hashes[name := newHash.value];
        return true;
      }
      return false;
    }

    /** One tick of the timed watcher: check every file, without stopping
        at the first change, and send one notification if any changed. */
    method Tick(fs: FileSystem)
      requires mode == TimedMode
      modifies this`hashes, this`notifications
      ensures var sweep := Sweep(old(hashes), files, fs, sha, base);
              hashes == sweep.store &&
              notifications == old(notifications) + (if sweep.changed then 1 else 0)
    {
      var change := false;
      for i := 0 to |files|
        invariant Sweep(old(hashes), files[..i], fs, sha, base) == Check(change, hashes)
        invariant notifications == old(notifications)
      {
        assert files[..i + 1][..i] == files[..i];
        var changed := FileChanged(fs, files[i]);
        if changed {
          change := true;
        }
      }
      assert files[..|files|] == files;
      if change {
        notifications := notifications + 1;
      }
    }

    /** Handle one file event of the event-driven watcher: the first watched
        file with the event's base name is re-subscribed if the event has
        the Create bit, then checked, and one notification is sent if it
        changed. An event matching no watched file changes nothing. */
    method HandleEvent(fs: FileSystem, eventName: Path, ops: bv32)
      requires mode == AutoMode
      modifies this`hashes, this`watched, this`notifications
      ensures match FirstMatch(files, base, eventName)
              case None =>
                hashes == old(hashes) && watched == old(watched) &&
                notifications == old(notifications)
              case Some(i) =>
                var check := Detect(old(hashes), base(files[i]), HashFile(fs, sha, files[i]));
                hashes == check.store &&
                watched == (if HasCreate(ops) then old(watched) + {files[i]} else old(watched)) &&
                notifications == old(notifications) + (if check.changed then 1 else 0)
    {
      var i := 0;
      while i < |files|
        invariant 0 <= i <= |files|
        invariant forall j :: 0 <= j < i ==> base(files[j]) != base(eventName)
        invariant hashes == old(hashes) && watched == old(watched)
        invariant notifications == old(notifications)
      {
        var name := base(eventName);
        if name == base(files[i]) {
          if HasCreate(ops) {
            watched := watched + {files[i]};
          }
          var changed := FileChanged(fs, files[i]);
          if changed {
            notifications := notifications + 1;
          }
          return;
        }
        i := i + 1;
      }
    }
  }
}
