/** Clients of the watcher that walk through a file being edited, removed
    and re-created, using only the contracts of the watcher's steps. */
module Scenarios {

  import opened Wrappers
  import opened ChangeModel
  import opened Watcher

  const WRITE: bv32 := 2
  const REMOVE: bv32 := 4

  /** The disk with `file` holding `data` and nothing else readable. */
  function Holding(file: Path, data: Bytes): (fs: FileSystem)
    ensures fs(file) == Some(data)
  {
    p => if p == file then Some(data) else None
  }

  /** The disk with nothing readable. */
  function Empty(): (fs: FileSystem)
    ensures forall p :: fs(p) == None
  {
    _ => None
  }

  /** Timed mode: one file is rewritten from `hello` to `world` and then left
      alone, removed and re-created with the same bytes. Only the rewrite
      is notified. */
  method TimedEditRemoveRecreate(file: Path, hello: Bytes, world: Bytes,
                                 sha: Bytes -> Digest, base: Path -> string)
    returns (sent: nat)
    requires sha(hello) != sha(world)
    ensures sent == 1
  {
    var w := new Watcher.Timed([file], Holding(file, hello), sha, base);
    assert [file][..0] == [];
    w.Tick(Holding(file, world));
    assert w.notifications == 1;
    w.Tick(Holding(file, world));
    w.Tick(Empty());
    w.Tick(Holding(file, world));
    sent := w.notifications;
  }

  /** Event-driven mode: the file is removed (nothing to read, nothing
      sent), re-created with the bytes it had (nothing sent), then written
      with new bytes (one notification). */
  method AutoRemoveRecreateEdit(file: Path, hello: Bytes, world: Bytes,
                                sha: Bytes -> Digest, base: Path -> string, dir: Path -> Path)
    returns (sent: nat)
    requires sha(hello) != sha(world)
    ensures sent == 1
  {
    var w := new Watcher.Auto([file], Holding(file, hello), sha, base, dir);
    assert [file][..0] == [];
    assert FirstMatch([file], base, file) == Some(0);
    w.HandleEvent(Empty(), file, REMOVE);
    assert w.notifications == 0;
    w.HandleEvent(Holding(file, hello), file, CREATE);
    assert w.notifications == 0;
    w.HandleEvent(Holding(file, world), file, WRITE);
    sent := w.notifications;
  }
}
