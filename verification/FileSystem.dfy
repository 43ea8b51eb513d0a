/** The file system the preparation script works on: a mutable map in which every
    operation may fail, and which remembers every state a crash could leave behind. */
module FileSystem {
  import opened Options
  import opened SourceManifest

  /** What a file holds: plain bytes, or the JSON text of a manifest with its length. */
  datatype Content =
    | Blob(data: Bytes)
    | Document(manifest: Manifest, size: nat)

  /** `Special` stands for a directory or a symbolic link. */
  datatype Node =
    | File(content: Content, readOnly: bool)
    | Special

  type Disk = map<Path, Node>

  predicate IsFile(disk: Disk, p: Path) { p in disk && disk[p].File? }

  /** The two disks agree except at the listed paths. */
  ghost predicate OnlyTouches(a: Disk, b: Disk, ps: set<Path>) {
    forall p :: p !in ps ==> (p in a <==> p in b) && (p in a && p in b ==> a[p] == b[p])
  }

  /** The states added to the history differ from `disk` at the listed paths only. */
  ghost predicate NewStatesTouch(before: seq<Disk>, after: seq<Disk>, disk: Disk, ps: set<Path>) {
    && |before| <= |after| && after[..|before|] == before
    && forall k :: |before| <= k < |after| ==> OnlyTouches(disk, after[k], ps)
  }

  lemma UpdateTouches(disk: Disk, p: Path, node: Node, history: seq<Disk>)
    ensures OnlyTouches(disk, disk, {p}) && OnlyTouches(disk, disk[p := node], {p})
    ensures NewStatesTouch(history, history, disk, {p})
    ensures NewStatesTouch(history, history + [disk[p := node]], disk, {p})
  {
  }

  /** Touching the same paths once more still touches only them. */
  lemma TouchesAgain(a: Disk, b: Disk, c: Disk, h0: seq<Disk>, h1: seq<Disk>, h2: seq<Disk>, ps: set<Path>)
    requires OnlyTouches(a, b, ps) && NewStatesTouch(h0, h1, a, ps)
    requires OnlyTouches(b, c, ps) && NewStatesTouch(h1, h2, b, ps)
    ensures OnlyTouches(a, c, ps) && NewStatesTouch(h0, h2, a, ps)
  {
  }

  class Storage {
    var disk: Disk
    /** Every state the disk has been in: where a crash may stop the process. */
    ghost var history: seq<Disk>
    /** How many operations have failed. */
    ghost var faults: nat
    /** Whether a write that reports success has stored the bytes it was given. */
    const faithful: bool

    constructor (disk: Disk, faithful: bool)
      ensures this.disk == disk && this.faithful == faithful && history == [disk] && faults == 0
    {
      this.disk, this.faithful, this.history, this.faults := disk, faithful, [disk], 0;
    }

    /** Reading part of an open file: an empty block means the end. */
    method ReadBlock(p: Path, bytes: Bytes, offset: nat, size: nat) returns (block: Option<Bytes>)
      requires offset <= |bytes| && size > 0
      modifies this`faults
      ensures block.Some? ==> faults == old(faults) && IsFile(disk, p)
      ensures block.Some? ==>
                block.value == bytes[offset..if offset + size < |bytes| then offset + size else |bytes|]
      ensures block.None? && IsFile(disk, p) ==> faults > old(faults)
      ensures faults >= old(faults)
    {
      var fault: bool := *;
      if fault || !IsFile(disk, p) {
        faults := faults + 1;
        return None;
      }
      return Some(bytes[offset..if offset + size < |bytes| then offset + size else |bytes|]);
    }

    /** `open(p, "xb")`. */
    method CreateExclusive(p: Path) returns (ok: bool)
      modifies this`disk, this`history, this`faults
      ensures ok ==> p !in old(disk) && disk == old(disk)[p := File(Blob([]), false)] && faults == old(faults)
      ensures ok ==> history == old(history) + [disk]
      ensures !ok ==> disk == old(disk) && history == old(history)
      ensures !ok && p !in old(disk) ==> faults > old(faults)
      ensures faults >= old(faults)
    {
      var fault: bool := *;
      if fault || p in disk {
        faults := faults + 1;
        return false;
      }
      disk := disk[p := File(Blob([]), false)];
      history := history + [disk];
      return true;
    }

    /** One `write` to an open file. It may fail part way, and unless the storage is
        faithful it may store other bytes than it was given. */
    method Append(p: Path, data: Bytes) returns (ok: bool)
      requires IsFile(disk, p) && disk[p].content.Blob?
      modifies this`disk, this`history, this`faults
      ensures OnlyTouches(old(disk), disk, {p}) && IsFile(disk, p) && disk[p].content.Blob?
      ensures ok && faithful ==> disk[p].content.data == old(disk[p].content.data) + data
      ensures ok ==> faults == old(faults)
      ensures !ok ==> faults > old(faults)
      ensures NewStatesTouch(old(history), history, old(disk), {p})
    {
      var torn: Bytes := *;
      var stored: Bytes := *;
      var fault: bool := *;
      if faithful && !fault {
        stored := disk[p].content.data + data;
      }
      disk := disk[p := File(Blob(torn), disk[p].readOnly)];
      history := history + [disk];
      disk := disk[p := File(Blob(stored), disk[p].readOnly)];
      history := history + [disk];
      if fault {
        faults := faults + 1;
      }
      return !fault;
    }

    /** `write_text`: the file appears, and only then is it filled. */
    method WriteDocument(p: Path, manifest: Manifest, size: nat) returns (ok: bool)
      modifies this`disk, this`history, this`faults
      ensures OnlyTouches(old(disk), disk, {p})
      ensures ok ==> disk == old(disk)[p := File(Document(manifest, size), false)] && faults == old(faults)
      ensures !ok ==> faults > old(faults)
                      && (p in disk ==> IsFile(disk, p) || (p in old(disk) && disk[p] == old(disk)[p]))
      ensures NewStatesTouch(old(history), history, old(disk), {p})
    {
      var fault: bool := *;
      var created: bool := *;
      var torn: Bytes := *;
      ghost var before := disk;
      if fault && !created {
        faults := faults + 1;
        return false;
      }
      disk := disk[p := File(Blob(torn), false)];
      history := history + [disk];
      if fault {
        faults := faults + 1;
        return false;
      }
      disk := disk[p := File(Document(manifest, size), false)];
      history := history + [disk];
      assert disk == before[p := File(Document(manifest, size), false)];
      return true;
    }

    /** `p.replace(q)`: an atomic rename. */
    method Replace(p: Path, q: Path) returns (ok: bool)
      requires p != q
      modifies this`disk, this`history, this`faults
      ensures ok ==> p in old(disk) && disk == (old(disk) - {p})[q := old(disk)[p]] && faults == old(faults)
      ensures ok ==> history == old(history) + [disk]
      ensures !ok ==> disk == old(disk) && history == old(history)
      ensures !ok && p in old(disk) ==> faults > old(faults)
      ensures faults >= old(faults)
    {
      var fault: bool := *;
      if fault || p !in disk {
        faults := faults + 1;
        return false;
      }
      disk := (disk - {p})[q := disk[p]];
      history := history + [disk];
      return true;
    }

    /** `p.chmod`, reduced to whether the file may be written. */
    method Chmod(p: Path, readOnly: bool) returns (ok: bool)
      modifies this`disk, this`history, this`faults
      ensures ok ==> IsFile(old(disk), p) && disk == old(disk)[p := File(old(disk)[p].content, readOnly)]
      ensures ok ==> faults == old(faults) && history == old(history) + [disk]
      ensures !ok ==> disk == old(disk) && history == old(history)
      ensures !ok && IsFile(old(disk), p) ==> faults > old(faults)
      ensures faults >= old(faults)
    {
      var fault: bool := *;
      if fault || !IsFile(disk, p) {
        faults := faults + 1;
        return false;
      }
      disk := disk[p := File(disk[p].content, readOnly)];
      history := history + [disk];
      return true;
    }

    method Unlink(p: Path) returns (ok: bool)
      modifies this`disk, this`history, this`faults
      ensures ok ==> p in old(disk) && disk == old(disk) - {p} && faults == old(faults)
      ensures ok ==> history == old(history) + [disk]
      ensures !ok ==> disk == old(disk) && history == old(history)
      ensures !ok && p in old(disk) ==> faults > old(faults)
      ensures faults >= old(faults)
    {
      var fault: bool := *;
      if fault || p !in disk {
        faults := faults + 1;
        return false;
      }
      disk := disk - {p};
      history := history + [disk];
      return true;
    }

    /** `mkdir(parents=True, exist_ok=True)`: directories are not part of the map. */
    method MakeDirectories() returns (ok: bool)
      modifies this`faults
      ensures ok ==> faults == old(faults)
      ensures !ok ==> faults > old(faults)
    {
      ok := *;
      if !ok {
        faults := faults + 1;
      }
    }
  }
}
