/** The on-disk cache of emote_common.py: the fixed directory layout, the
    asset file naming rule, the metadata records and the sidecar file. The
    file system is a map from path to content plus the set of directories. */
module EmoteStore {
  import opened Results
  import opened EmoteNames

  newtype byte = x: int | 0 <= x < 256
  type Bytes = seq<byte>
  type Path = string

  /** Separator `pathlib` uses for the Windows base directory below. */
  const Sep: char := '\\'

  const BaseDir: Path := "D:\\Archiver\\persons\\MichiMochievee\\twitch\\emotes"
  const SevenTvUserId: string := "01HVVN0NE800000R4ZCT3E1978"
  const BroadcasterId: string := "1057785822"
  const ThumbSize: nat := 96
  const PreviewSize: nat := 256
  const GridCols: nat := 8
  const SidecarName: string := "metadata.json"

  /** `folder / leaf` */
  function Join(dir: Path, leaf: string): Path {
    dir + [Sep] + leaf
  }

  const Dir7tv: Path := Join(BaseDir, "7tv")
  const DirTwitch: Path := Join(BaseDir, "official")

  /** `dir / f"{eid}_{norm(name)}.webp"`, the rule both providers use. */
  function AssetPath(dir: Path, id: string, name: string): Path {
    Join(dir, id + "_" + Norm(name) + ".webp")
  }

  /** `folder / "metadata.json"` */
  function SidecarPath(dir: Path): Path {
    Join(dir, SidecarName)
  }

  /** One metadata record. `path` is optional because a sidecar written by an
      older version may lack it. The other keys are plain fields: every record
      the two passes write has all of them, and a record missing one of them
      is not represented. */
  datatype EmoteRecord = EmoteRecord(
    name: string,
    id: string,
    source: string,
    owner: string,
    animated: bool,
    createdAt: Option<string>,
    tags: seq<string>,
    path: Option<Path>,
    downloadedAt: string)

  /** What a file holds: raw bytes, or a sidecar that decodes to records. */
  datatype FileContent = Blob(bytes: Bytes) | Sidecar(records: seq<EmoteRecord>)

  datatype LoadError = NotAFile(path: Path) | Undecodable(path: Path)

  /** A snapshot of the file system. */
  datatype FsState = FsState(files: map<Path, FileContent>, dirs: set<Path>) {

    /** `Path.exists()`: true for files and directories alike. */
    predicate Exists(p: Path) {
      p in files || p in dirs
    }

    /** `mkdir(parents=True, exist_ok=True)`: fails only when a file is in the way. */
    function MakeDir(d: Path): Option<FsState> {
      if d in files then None else Some(FsState(files, dirs + {d}))
    }

    /** `Path.write_bytes` / `Image.save` to a path that is not a directory. */
    function Write(p: Path, b: Bytes): FsState {
      FsState(files[p := Blob(b)], dirs)
    }

    /** `_save_meta(folder, items)` (emote_common.py:59-61): create the folder,
        then overwrite the sidecar with exactly `items`. A failure carries the
        state the failure leaves behind (the folder may have been created). */
    function SaveMeta(folder: Path, items: seq<EmoteRecord>): (r: Result<FsState, FsState>)
      ensures r.Ok? <==> folder !in files && SidecarPath(folder) !in dirs
      ensures r.Ok? ==> folder in r.value.dirs
      ensures r.Err? ==> r.error.files == files
    {
      match MakeDir(folder)
      case None => Err(this)
      case Some(fs) =>
        if SidecarPath(folder) in fs.dirs then Err(fs)
        else Ok(FsState(fs.files[SidecarPath(folder) := Sidecar(items)], fs.dirs))
    }

    /** The state after `SaveMeta`, whether or not it succeeded. */
    function AfterSave(folder: Path, items: seq<EmoteRecord>): FsState {
      match SaveMeta(folder, items)
      case Ok(fs) => fs
      case Err(fs) => fs
    }

    /** `EmoteConsole._load_meta(fp)` (emote_console.py:83-88): a missing file
        reads as no records; anything else that cannot be read is an error. */
    function LoadMeta(fp: Path): (r: Result<seq<EmoteRecord>, LoadError>)
      ensures !Exists(fp) ==> r == Ok([])
      ensures r.Err? ==> Exists(fp)
    {
      if fp in files then
        match files[fp]
        case Sidecar(records) => Ok(records)
        case Blob(_) => Err(Undecodable(fp))
      else if fp in dirs then Err(NotAFile(fp))
      else Ok([])
    }
  }

  /** A saved sidecar reads back as exactly the records saved, and nothing
      else on disk changes but the folder's existence. */
  lemma SaveThenLoad(fs: FsState, folder: Path, items: seq<EmoteRecord>)
    requires fs.SaveMeta(folder, items).Ok?
    ensures fs.AfterSave(folder, items).LoadMeta(SidecarPath(folder)) == Ok(items)
    ensures forall p :: p != SidecarPath(folder) && p in fs.files ==>
              p in fs.AfterSave(folder, items).files &&
              fs.AfterSave(folder, items).files[p] == fs.files[p]
  {
  }

  /** `mkdir(exist_ok=True)` succeeds unless a file is in the way; it leaves
      every file alone, makes the directory exist, and repeating it changes
      nothing. */
  lemma MakeDirSpec(fs: FsState, d: Path)
    ensures fs.MakeDir(d).Some? <==> d !in fs.files
    ensures fs.MakeDir(d).Some? ==>
      fs.MakeDir(d).value.files == fs.files && fs.MakeDir(d).value.Exists(d) &&
      (forall p :: fs.Exists(p) ==> fs.MakeDir(d).value.Exists(p)) &&
      fs.MakeDir(d).value.MakeDir(d) == fs.MakeDir(d)
  {
  }

  /** After a write the path holds exactly the bytes written; no other path
      and no directory changes, and writing the same bytes again is a no-op. */
  lemma WriteSpec(fs: FsState, p: Path, b: Bytes)
    ensures fs.Write(p, b).Exists(p) && fs.Write(p, b).files[p] == Blob(b)
    ensures forall q :: q != p ==>
      (q in fs.Write(p, b).files <==> q in fs.files) &&
      (q in fs.files ==> fs.Write(p, b).files[q] == fs.files[q])
    ensures fs.Write(p, b).dirs == fs.dirs
    ensures fs.Write(p, b).Write(p, b) == fs.Write(p, b)
  {
  }

  lemma {:induction false} CancelAffixes(p: string, x: string, y: string, q: string)
    requires p + x + q == p + y + q
    ensures x == y
  {
    var s := p + x + q;
    assert |x| == |y|;
    assert x == s[|p|..|p| + |x|];
    assert y == (p + y + q)[|p|..|p| + |y|];
  }

  lemma Regroup<T>(a: seq<T>, b: seq<T>, c: seq<T>, d: seq<T>, e: seq<T>, f: seq<T>)
    ensures a + b + (c + d + e + f) == a + b + c + d + e + f
  {
  }

  /** For a fixed directory and id, two names give the same asset path exactly
      when they normalise alike: a rename that changes the normalised name
      gives a different path string. Paths are compared as exact strings,
      so a rename that changes only letter case also gives a different one. */
  lemma AssetPathDistinguishesNames(dir: Path, id: string, a: string, b: string)
    ensures AssetPath(dir, id, a) == AssetPath(dir, id, b) <==> Norm(a) == Norm(b)
  {
    var p := dir + [Sep] + id + "_";
    Regroup(dir, [Sep], id, "_", Norm(a), ".webp");
    Regroup(dir, [Sep], id, "_", Norm(b), ".webp");
    if AssetPath(dir, id, a) == AssetPath(dir, id, b) {
      CancelAffixes(p, Norm(a), Norm(b), ".webp");
    }
  }

  /** No asset path is a sidecar path: assets end in ".webp", sidecars in ".json". */
  lemma AssetIsNotSidecar(dir: Path, id: string, name: string, dir2: Path)
    ensures AssetPath(dir, id, name) != SidecarPath(dir2)
  {
    var a := AssetPath(dir, id, name);
    var s := SidecarPath(dir2);
    assert a[|a| - 1] == 'p';
    assert s[|s| - 1] == 'n';
  }

  /** The file system a sync pass works on, updated in place. */
  class Disk {
    var files: map<Path, FileContent>
    var dirs: set<Path>

    function State(): FsState
      reads this
    {
      FsState(files, dirs)
    }

    constructor (fs: FsState)
      ensures State() == fs
    {
      files := fs.files;
      dirs := fs.dirs;
    }

    method MakeDirs(d: Path) returns (ok: bool)
      modifies this
      ensures ok <==> old(State()).MakeDir(d).Some?
      ensures State() == if ok then old(State()).MakeDir(d).value else old(State())
    {
      ok := d !in files;
      if ok {
        dirs := dirs + {d};
      }
    }

    method Exists(p: Path) returns (b: bool)
      ensures b <==> State().Exists(p)
    {
      b := p in files || p in dirs;
    }

    method WriteBytes(p: Path, b: Bytes)
      requires p !in dirs
      modifies this
      ensures State() == old(State()).Write(p, b)
    {
      files := files[p := Blob(b)];
    }

    method SaveMeta(folder: Path, items: seq<EmoteRecord>) returns (ok: bool)
      modifies this
      ensures ok <==> old(State()).SaveMeta(folder, items).Ok?
      ensures State() == old(State()).AfterSave(folder, items)
    {
      ok := MakeDirs(folder);
      if ok {
        var sp := SidecarPath(folder);
        if sp in dirs {
          ok := false;
        } else {
          files := files[sp := Sidecar(items)];
        }
      }
    }
  }
}
