/** Wiki storage on the plain filesystem (src/repository.rs): path
    validation, reading, writing, existence probing and directory listing
    over an abstract disk, and the order of listing items. */
module Repository {
  import opened Errors
  import opened Utf8

  /** A filesystem path as its components, outermost first. */
  type Path = seq<string>

  /** What the disk holds at a path: a regular file with its bytes, a
      directory, or an entry that can be neither opened nor created as a file
      (a socket, a dangling link). FIFOs and device nodes, which can be opened
      and written, are not modelled. */
  datatype Entry = FileEntry(contents: seq<byte>) | DirEntry | OtherEntry

  /** The operating system's filesystem as the repository sees it. */
  class Disk {
    var entries: map<Path, Entry>

    constructor (entries: map<Path, Entry>)
      ensures this.entries == entries
    {
      this.entries := entries;
    }
  }

  predicate IsDir(entries: map<Path, Entry>, p: Path)
  {
    p in entries && entries[p] == DirEntry
  }

  predicate IsFile(entries: map<Path, Entry>, p: Path)
  {
    p in entries && entries[p].FileEntry?
  }

  /** The shape every real filesystem has: the root is a directory and every
      other entry sits inside a directory. */
  ghost predicate TreeShaped(entries: map<Path, Entry>)
  {
    && IsDir(entries, [])
    && forall p :: p in entries && p != [] ==> IsDir(entries, p[..|p| - 1])
  }

  /** `str::starts_with`. */
  predicate StartsWith(s: string, prefix: string)
  {
    |prefix| <= |s| && s[..|prefix|] == prefix
  }

  /** `path_element_ok`: a path element may not start with '.', which keeps
      hidden files and the "." and ".." elements out. */
  function PathElementOk(element: string): (ok: bool)
    ensures ok <==> !StartsWith(element, ".")
    ensures !ok ==> element != [] && element[0] == '.'
  {
    !(|element| > 0 && element[0] == '.')
  }

  predicate AllElementsOk(rel: Path)
  {
    forall i :: 0 <= i < |rel| ==> PathElementOk(rel[i])
  }

  /** `File::open` then `read_to_end`: the bytes of a regular file; a missing
      path, a directory or an `OtherEntry` fails with `Io`. */
  function ReadAt(entries: map<Path, Entry>, path: Path): Result<seq<byte>>
  {
    if IsFile(entries, path) then Ok(entries[path].contents) else Err(Io)
  }

  /** Whether `File::create` succeeds: the parent is an existing directory
      (no missing directories are made) and the path is either absent or a
      regular file. */
  predicate CanCreate(entries: map<Path, Entry>, path: Path)
  {
    |path| > 0 && IsDir(entries, path[..|path| - 1]) && (path !in entries || entries[path].FileEntry?)
  }

  /** The observable result of `read_file`. */
  function ReadFileSpec(entries: map<Path, Entry>, root: Path, filePath: Path): Result<seq<byte>>
  {
    if !AllElementsOk(filePath) then Err(InvalidPath) else ReadAt(entries, root + filePath)
  }

  /** The result of `write_file` and the disk after it: the file is created
      or truncated and holds the UTF-8 bytes of `content`. */
  function WriteFileSpec(entries: map<Path, Entry>, root: Path, filePath: Path, content: string)
    : (Result<()>, map<Path, Entry>)
  {
    if !AllElementsOk(filePath) then (Err(InvalidPath), entries)
    else if !CanCreate(entries, root + filePath) then (Err(Io), entries)
    else (Ok(()), entries[root + filePath := FileEntry(Encode(content))])
  }

  /** The result of `directory_exists`. */
  function DirectoryExistsSpec(entries: map<Path, Entry>, root: Path, path: Path): Result<bool>
  {
    Ok(AllElementsOk(path) && IsDir(entries, root + path))
  }

  datatype RepositoryItem = Directory(name: string) | File(name: string)

  /** The `filter_map` step for one directory entry named `name`. */
  function Classify(entry: Entry, name: string): Option<RepositoryItem>
  {
    if !PathElementOk(name) then None
    else
      match entry
      case FileEntry(_) => Some(File(name))
      case DirEntry => Some(Directory(name))
      case OtherEntry => None
  }

  /** The items `enumerate_files` lists for the directory `dir`: one per
      immediate child that `Classify` keeps. */
  function Listing(entries: map<Path, Entry>, dir: Path): set<RepositoryItem>
  {
    set p | p in entries.Keys && |p| == |dir| + 1 && p[..|dir|] == dir && Classify(entries[p], p[|dir|]).Some?
      :: Classify(entries[p], p[|dir|]).value
  }

  /** The result of `enumerate_files`; `read_dir` fails on anything but a
      directory. */
  function EnumerateFilesSpec(entries: map<Path, Entry>, root: Path, directory: Path): Result<set<RepositoryItem>>
  {
    if !AllElementsOk(directory) then Err(InvalidPath)
    else if !IsDir(entries, root + directory) then Err(Io)
    else Ok(Listing(entries, root + directory))
  }

  class FileSystemRepository {
    const rootDir: Path
    const disk: Disk

    constructor (rootDir: Path, disk: Disk)
      ensures this.rootDir == rootDir && this.disk == disk
    {
      this.rootDir := rootDir;
      this.disk := disk;
    }

    /** `canonicalize_path`: pushes each element onto the root, failing at the
        first element that starts with '.'. Containment in the root is not
        checked. */
    method CanonicalizePath(relativePath: Path) returns (r: Result<Path>)
      ensures !AllElementsOk(relativePath) <==> r == Err(InvalidPath)
      ensures AllElementsOk(relativePath) ==> r == Ok(rootDir + relativePath)
    {
      var path := rootDir;
      for i := 0 to |relativePath|
        invariant path == rootDir + relativePath[..i]
        invariant forall j :: 0 <= j < i ==> PathElementOk(relativePath[j])
      {
        var part := relativePath[i];
        if !PathElementOk(part) {
          return Err(InvalidPath);
        }
        path := path + [part];
        assert relativePath[..i + 1] == relativePath[..i] + [part];
      }
      assert relativePath[..|relativePath|] == relativePath;
      return Ok(path);
    }

    method ReadFile(filePath: Path) returns (r: Result<seq<byte>>)
      ensures r == ReadFileSpec(disk.entries, rootDir, filePath)
    {
      var path :- CanonicalizePath(filePath);
      if IsFile(disk.entries, path) {
        r := Ok(disk.entries[path].contents);
      } else {
        r := Err(Io);
      }
    }

    method WriteFile(filePath: Path, content: string) returns (r: Result<()>)
      modifies disk
      ensures (r, disk.entries) == WriteFileSpec(old(disk.entries), rootDir, filePath, content)
      ensures TreeShaped(old(disk.entries)) ==> TreeShaped(disk.entries)
    {
      if TreeShaped(disk.entries) {
        WritePreservesTree(disk.entries, rootDir, filePath, content);
      }
      var path :- CanonicalizePath(filePath);
      if !CanCreate(disk.entries, path) {
        return Err(Io);
      }
      disk.entries := disk.entries[path := FileEntry(Encode(content))];
      r := Ok(());
    }

    method DirectoryExists(path: Path) returns (r: Result<bool>)
      ensures r == DirectoryExistsSpec(disk.entries, rootDir, path)
    {
      var canonical := CanonicalizePath(path);
      match canonical
      case Ok(p) => r := Ok(IsDir(disk.entries, p));
      case Err(_) => r := Ok(false);
    }

    method EnumerateFiles(directory: Path) returns (r: Result<set<RepositoryItem>>)
      ensures r == EnumerateFilesSpec(disk.entries, rootDir, directory)
    {
      var path :- CanonicalizePath(directory);
      if !IsDir(disk.entries, path) {
        return Err(Io);
      }
      r := Ok(Listing(disk.entries, path));
    }
  }

  /** `create_repository`: the root must canonicalize (`canonical` is what
      `std::fs::canonicalize` returned for `dirPath`) and be a directory. Only
      the filesystem backend exists; the other choice is unimplemented and may
      only be asked for when validation fails first. */
  method CreateRepository(useFs: bool, dirPath: Path, canonical: Option<Path>, disk: Disk)
    returns (r: Result<FileSystemRepository>)
    requires useFs || canonical.None? || !IsDir(disk.entries, canonical.value)
    ensures canonical.None? ==> r == Err(GitRepoDoesNotExist(dirPath))
    ensures canonical.Some? && !IsDir(disk.entries, canonical.value) ==>
      r == Err(GitRepoDoesNotExist(canonical.value))
    ensures canonical.Some? && IsDir(disk.entries, canonical.value) ==>
      r.Ok? && fresh(r.value) && r.value.rootDir == canonical.value && r.value.disk == disk
  {
    if canonical.None? {
      return Err(GitRepoDoesNotExist(dirPath));
    }
    var rootDir := canonical.value;
    if !IsDir(disk.entries, rootDir) {
      return Err(GitRepoDoesNotExist(rootDir));
    }
    var repo := new FileSystemRepository(rootDir, disk);
    r := Ok(repo);
  }

  /** A path with a hidden element is refused by every operation before the
      disk is touched; `directory_exists` answers false instead of failing. */
  lemma HiddenElementRejected(entries: map<Path, Entry>, root: Path, path: Path, content: string)
    requires exists i :: 0 <= i < |path| && StartsWith(path[i], ".")
    ensures ReadFileSpec(entries, root, path) == Err(InvalidPath)
    ensures WriteFileSpec(entries, root, path, content) == (Err(InvalidPath), entries)
    ensures EnumerateFilesSpec(entries, root, path) == Err(InvalidPath)
    ensures DirectoryExistsSpec(entries, root, path) == Ok(false)
  {
  }

  /** `directory_exists` never fails, and is true exactly for a valid path
      naming a directory. */
  lemma DirectoryExistsNeverFails(entries: map<Path, Entry>, root: Path, path: Path)
    ensures DirectoryExistsSpec(entries, root, path).Ok?
    ensures DirectoryExistsSpec(entries, root, path).value <==> AllElementsOk(path) && IsDir(entries, root + path)
  {
  }

  /** A successful write is read back as the content's bytes, and changes what
      no other path reads and which paths are directories. */
  lemma WriteThenRead(entries: map<Path, Entry>, root: Path, path: Path, content: string, other: Path)
    requires WriteFileSpec(entries, root, path, content).0.Ok?
    requires root + other != root + path
    ensures var after := WriteFileSpec(entries, root, path, content).1;
      && ReadFileSpec(after, root, path) == Ok(Encode(content))
      && ReadFileSpec(after, root, other) == ReadFileSpec(entries, root, other)
      && DirectoryExistsSpec(after, root, other) == DirectoryExistsSpec(entries, root, other)
  {
  }

  /** A write succeeds exactly when the path is valid and `File::create` can
      make or truncate the file there, and a failed write changes nothing. */
  lemma WriteFileOutcome(entries: map<Path, Entry>, root: Path, path: Path, content: string)
    ensures WriteFileSpec(entries, root, path, content).0.Ok? <==>
      AllElementsOk(path) && CanCreate(entries, root + path)
    ensures WriteFileSpec(entries, root, path, content).0.Err? ==>
      WriteFileSpec(entries, root, path, content).1 == entries
  {
  }

  /** Writes keep the disk a tree. */
  lemma WritePreservesTree(entries: map<Path, Entry>, root: Path, path: Path, content: string)
    requires TreeShaped(entries)
    ensures TreeShaped(WriteFileSpec(entries, root, path, content).1)
  {
  }

  /** `enumerate_files` lists exactly the immediate children that are not
      hidden, files as File and directories as Directory; nothing it returns
      starts with '.'. */
  lemma ListingContents(entries: map<Path, Entry>, dir: Path)
    ensures forall it :: it in Listing(entries, dir) ==> PathElementOk(it.name)
    ensures forall name :: File(name) in Listing(entries, dir) <==>
      PathElementOk(name) && IsFile(entries, dir + [name])
    ensures forall name :: Directory(name) in Listing(entries, dir) <==>
      PathElementOk(name) && IsDir(entries, dir + [name])
  {
    forall it | it in Listing(entries, dir)
      ensures PathElementOk(it.name)
      ensures it.File? ==> IsFile(entries, dir + [it.name])
      ensures it.Directory? ==> IsDir(entries, dir + [it.name])
    {
      var p :| p in entries.Keys && |p| == |dir| + 1 && p[..|dir|] == dir
        && Classify(entries[p], p[|dir|]).Some? && Classify(entries[p], p[|dir|]).value == it;
      assert p == dir + [p[|dir|]];
    }
    forall name | PathElementOk(name) && (IsFile(entries, dir + [name]) || IsDir(entries, dir + [name]))
      ensures Classify(entries[dir + [name]], name).value in Listing(entries, dir)
    {
      var p := dir + [name];
      assert p[..|dir|] == dir && p[|dir|] == name;
    }
  }

  /** The order `#[derive(Ord)]` gives: variants in declaration order, then
      the name, compared as `String` compares, byte by byte on its UTF-8. */
  datatype Ordering = Less | Equal | Greater

  function Reverse(o: Ordering): Ordering
  {
    match o
    case Less => Greater
    case Equal => Equal
    case Greater => Less
  }

  /** Lexicographic comparison of byte strings (`[u8]`'s `Ord`). */
  function CompareBytes(a: seq<byte>, b: seq<byte>): Ordering
  {
    if a == [] then (if b == [] then Equal else Less)
    else if b == [] then Greater
    else if a[0] < b[0] then Less
    else if a[0] > b[0] then Greater
    else CompareBytes(a[1..], b[1..])
  }

  function VariantIndex(item: RepositoryItem): nat
  {
    match item
    case Directory(_) => 0
    case File(_) => 1
  }

  /** `Ord::cmp` of `RepositoryItem`. */
  function CompareItems(x: RepositoryItem, y: RepositoryItem): Ordering
  {
    if VariantIndex(x) < VariantIndex(y) then Less
    else if VariantIndex(x) > VariantIndex(y) then Greater
    else CompareBytes(Encode(x.name), Encode(y.name))
  }

  lemma {:induction false} CompareBytesEqual(a: seq<byte>, b: seq<byte>)
    ensures CompareBytes(a, b) == Equal <==> a == b
  {
    if a != [] && b != [] && a[0] == b[0] {
      CompareBytesEqual(a[1..], b[1..]);
      assert a == [a[0]] + a[1..] && b == [b[0]] + b[1..];
    }
  }

  lemma {:induction false} CompareBytesReverse(a: seq<byte>, b: seq<byte>)
    ensures CompareBytes(b, a) == Reverse(CompareBytes(a, b))
  {
    if a != [] && b != [] && a[0] == b[0] {
      CompareBytesReverse(a[1..], b[1..]);
    }
  }

  lemma {:induction false} CompareBytesTransitive(a: seq<byte>, b: seq<byte>, c: seq<byte>)
    requires CompareBytes(a, b) == Less && CompareBytes(b, c) == Less
    ensures CompareBytes(a, c) == Less
  {
    if a != [] && a[0] == b[0] && b[0] == c[0] {
      CompareBytesTransitive(a[1..], b[1..], c[1..]);
    }
  }

  /** Every Directory sorts before every File. */
  lemma DirectoriesBeforeFiles(d: string, f: string)
    ensures CompareItems(Directory(d), File(f)) == Less
    ensures CompareItems(File(f), Directory(d)) == Greater
  {
  }

  /** `CompareItems` is a total order: equal exactly on equal items,
      antisymmetric, and transitive. */
  lemma ItemOrderIsTotal(x: RepositoryItem, y: RepositoryItem, z: RepositoryItem)
    ensures CompareItems(x, y) == Equal <==> x == y
    ensures CompareItems(y, x) == Reverse(CompareItems(x, y))
    ensures CompareItems(x, y) == Less && CompareItems(y, z) == Less ==> CompareItems(x, z) == Less
  {
    CompareBytesEqual(Encode(x.name), Encode(y.name));
    if Encode(x.name) == Encode(y.name) {
      EncodeInjective(x.name, y.name);
    }
    CompareBytesReverse(Encode(x.name), Encode(y.name));
    if CompareItems(x, y) == Less && CompareItems(y, z) == Less && VariantIndex(x) == VariantIndex(z) {
      CompareBytesTransitive(Encode(x.name), Encode(y.name), Encode(z.name));
    }
  }
}
