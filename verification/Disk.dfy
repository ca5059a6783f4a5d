/** A file as its last synced bytes plus the operations issued since, and what a crash may
    leave of it: a prefix of those operations, the last write torn at any byte. */
module Disk {
  import opened Bytes

  datatype FileOp = Append(data: Bytes) | Truncate(size: nat)
  datatype Disk = Disk(synced: Bytes, ops: seq<FileOp>)

  function RunOp(content: Bytes, op: FileOp): Bytes {
    match op
    case Append(data) => content + data
    case Truncate(size) =>
      if size <= |content| then content[..size] else content + seq(size - |content|, _ => 0)
  }

  function RunOps(content: Bytes, ops: seq<FileOp>): Bytes {
    if ops == [] then content else RunOp(RunOps(content, ops[..|ops| - 1]), ops[|ops| - 1])
  }

  /** What a reader of the live file sees. */
  function Contents(d: Disk): Bytes {
    RunOps(d.synced, d.ops)
  }

  function Write(d: Disk, data: Bytes): Disk {
    d.(ops := d.ops + [Append(data)])
  }

  function Cut(d: Disk, size: nat): Disk {
    d.(ops := d.ops + [Truncate(size)])
  }

  function Sync(d: Disk): Disk {
    Disk(Contents(d), [])
  }

  /** Writing a synced temporary file and renaming it over: old or new, never a mixture. */
  function Replace(bytes: Bytes): Disk {
    Disk(bytes, [])
  }

  ghost predicate Torn(content: Bytes, data: Bytes, image: Bytes) {
    exists m :: 0 <= m <= |data| && image == content + data[..m]
  }

  ghost predicate CrashAfter(d: Disk, k: nat, image: Bytes)
    requires k <= |d.ops|
  {
    var content := RunOps(d.synced, d.ops[..k]);
    image == content || (k < |d.ops| && d.ops[k].Append? && Torn(content, d.ops[k].data, image))
  }

  ghost predicate CrashImage(d: Disk, image: Bytes) {
    exists k :: 0 <= k <= |d.ops| && CrashAfter(d, k, image)
  }

  /** A crash while more bytes are written leaves what a crash before could leave, or the whole
      file with some part of the new bytes. */
  lemma CrashOfWrite(d: Disk, data: Bytes, image: Bytes)
    requires CrashImage(Write(d, data), image)
    ensures CrashImage(d, image) || Torn(Contents(d), data, image)
  {
    var w := Write(d, data);
    var last := |d.ops|;
    var k :| 0 <= k <= |w.ops| && CrashAfter(w, k, image);
    if k < last {
      assert w.ops[..k] == d.ops[..k] && w.ops[k] == d.ops[k];
      assert CrashAfter(d, k, image);
    } else if k == last {
      assert w.ops[..last] == d.ops && w.ops[last] == Append(data);
      if image == Contents(d) {
        assert image == Contents(d) + data[..0];
      }
    } else {
      assert w.ops[..k] == w.ops && w.ops[..last] == d.ops;
      assert image == Contents(d) + data[..|data|];
    }
  }
}
