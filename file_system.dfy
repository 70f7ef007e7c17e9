/**
 * The part of the file system the services touch: regular files by path, read
 * whole and written whole. Which mutating operation fails (a full disk, a
 * permission error) is not decided by anything the program can see, so it is
 * an input: a script of faults that each copy or write consumes in turn.
 */
module Files {
  import opened Charsets

  type Path = string

  /**
   * What a failing operation leaves at its target: nothing changed (it failed
   * before opening the file), no file at all (a copy that replaced the target
   * and then failed), or the first `kept` bytes of what it was writing (a
   * write that truncated the file and then failed part-way).
   */
  datatype Damage = Untouched | Removed | Truncated(kept: nat)

  /** One entry of the fault script: the operation succeeds, or fails leaving that damage. */
  datatype Fault = Pass | Fail(damage: Damage)

  /** File contents by path, and the faults still to come. */
  datatype Disk = Disk(files: map<Path, seq<byte>>, faults: seq<Fault>)

  /** What a mutating operation leaves behind, and whether it succeeded. */
  datatype Outcome = Outcome(disk: Disk, ok: bool)

  predicate NextFails(d: Disk) {
    d.faults != [] && d.faults[0].Fail?
  }

  /** The fault script after one mutating operation has consumed its entry. */
  function RestOfFaults(d: Disk): seq<Fault> {
    if d.faults == [] then [] else d.faults[1..]
  }

  /** The files after an operation writing `content` to `p` failed with `damage`. */
  function Damaged(files: map<Path, seq<byte>>, p: Path, content: seq<byte>, damage: Damage): map<Path, seq<byte>> {
    match damage
    case Untouched => files
    case Removed => files - {p}
    case Truncated(kept) => files[p := content[..if kept < |content| then kept else |content|]]
  }

  /**
   * Files.write with CREATE and TRUNCATE_EXISTING: the file holds `content`
   * afterwards if the operation succeeds; if it fails, the file is gone, still
   * holds its old bytes, or holds a prefix of `content`. No other path changes.
   */
  function Store(d: Disk, p: Path, content: seq<byte>): (r: Outcome)
    ensures r.disk.faults == RestOfFaults(d)
    ensures r.ok <==> !NextFails(d)
    ensures r.ok ==> r.disk.files == d.files[p := content]
    ensures r.disk.files - {p} == d.files - {p}
    ensures !r.ok && p in r.disk.files ==> r.disk.files[p] <= content || (p in d.files && r.disk.files[p] == d.files[p])
  {
    if NextFails(d) then Outcome(Disk(Damaged(d.files, p, content, d.faults[0].damage), RestOfFaults(d)), false)
    else Outcome(Disk(d.files[p := content], RestOfFaults(d)), true)
  }

  /**
   * Files.copy with REPLACE_EXISTING: a missing source is an error that
   * touches nothing; otherwise the target is written like Store writes it,
   * with the source's bytes.
   */
  function CopyFile(d: Disk, from: Path, to: Path): (r: Outcome)
    ensures r.ok <==> from in d.files && !NextFails(d)
    ensures r.ok ==> r.disk.files == d.files[to := d.files[from]]
    ensures from !in d.files ==> r.disk == d
    ensures r.disk.files - {to} == d.files - {to}
    ensures !r.ok && to in r.disk.files ==> (from in d.files && r.disk.files[to] <= d.files[from]) || (to in d.files && r.disk.files[to] == d.files[to])
  {
    if from !in d.files then Outcome(d, false)
    else Store(d, to, d.files[from])
  }

  /** A copy or write never touches any other path. */
  lemma OtherPathsUnchanged(d: Disk, p: Path, content: seq<byte>, q: Path)
    requires q != p
    ensures q in Store(d, p, content).disk.files <==> q in d.files
    ensures q in d.files ==> Store(d, p, content).disk.files[q] == d.files[q]
  {
    var after := Store(d, p, content).disk.files;
    assert q in after <==> q in after - {p};
    assert q in d.files <==> q in d.files - {p};
    if q in d.files {
      assert after[q] == (after - {p})[q];
    }
  }

  /** The disk the services run against. */
  class FileSystem {
    var files: map<Path, seq<byte>>
    var faults: seq<Fault>

    function State(): Disk
      reads this
    {
      Disk(files, faults)
    }

    constructor (d: Disk)
      ensures State() == d
    {
      files := d.files;
      faults := d.faults;
    }

    /** Files.exists. */
    method Exists(p: Path) returns (r: bool)
      ensures r <==> p in State().files
    {
      r := p in files;
    }

    /** Files.readAllBytes of a file known to exist. */
    method ReadAllBytes(p: Path) returns (r: seq<byte>)
      requires p in State().files
      ensures r == State().files[p]
    {
      r := files[p];
    }

    method Write(p: Path, content: seq<byte>) returns (ok: bool)
      modifies this
      ensures Outcome(State(), ok) == Store(old(State()), p, content)
    {
      var o := Store(State(), p, content);
      files, faults, ok := o.disk.files, o.disk.faults, o.ok;
    }

    method Copy(from: Path, to: Path) returns (ok: bool)
      modifies this
      ensures Outcome(State(), ok) == CopyFile(old(State()), from, to)
    {
      var o := CopyFile(State(), from, to);
      files, faults, ok := o.disk.files, o.disk.faults, o.ok;
    }
  }
}
