/**
 Output naming and writing of `save_files` in app.py: the stem of the given
 base name, the four output paths, the three text files and the archive that
 holds them under their bare names.

 The filesystem is a map from path to node; every write replaces the node at
 its path. The errors raised by `mkdir(exist_ok=True)` on a non-directory and
 by writing a file where a directory stands are modelled; nothing written
 before an error is rolled back.
 */
module Bundle {
  import opened Wrappers

  /** Index of the last occurrence of `c` in `s`, or -1 (Python's `str.rfind`). */
  function LastIndexOf(s: string, c: char): (i: int)
    ensures -1 <= i < |s|
    ensures i >= 0 ==> s[i] == c
    ensures forall j :: i < j < |s| ==> s[j] != c
  {
    if s == [] then -1
    else if s[|s| - 1] == c then |s| - 1
    else LastIndexOf(s[..|s| - 1], c)
  }

  /** The last occurrence is the one with no other occurrence after it. */
  lemma LastIndexIs(s: string, c: char, i: nat)
    requires i < |s| && s[i] == c
    requires forall j :: i < j < |s| ==> s[j] != c
    ensures LastIndexOf(s, c) == i
  {
  }

  /** `os.path.basename`: everything after the last `/`. */
  function Basename(p: string): (b: string)
    ensures '/' !in b
    ensures |b| <= |p| && b == p[|p| - |b|..]
    ensures |b| == |p| || p[|p| - |b| - 1] == '/'
  {
    p[LastIndexOf(p, '/') + 1..]
  }

  /** The base name of `dir/name` is `name` whenever `name` holds no `/`. */
  lemma BasenameOfJoin(dir: string, name: string)
    requires '/' !in name
    ensures Basename(dir + "/" + name) == name
  {
    var p := dir + "/" + name;
    LastIndexIs(p, '/', |dir|);
    assert p[|dir| + 1..] == name;
  }

  /**
   `PurePosixPath(p).name`: the last component, where empty components and
   `.` components do not count (the path `""` is `.` and has the empty name).
   */
  function PathName(p: string): (name: string)
    ensures '/' !in name
    ensures name != "."
    decreases |p|
  {
    var i := LastIndexOf(p, '/');
    var tail := p[i + 1..];
    if tail != "" && tail != "." then tail
    else if i < 0 then ""
    else PathName(p[..i])
  }

  /** Python's `PurePath.suffix` test: a last dot that is neither first nor last. */
  function SuffixStart(name: string): (i: int)
    ensures i == -1 || 0 < i < |name| - 1
    ensures i >= 0 ==> name[i] == '.' && i == LastIndexOf(name, '.')
    ensures 0 < LastIndexOf(name, '.') < |name| - 1 ==> i == LastIndexOf(name, '.')
  {
    var i := LastIndexOf(name, '.');
    if 0 < i < |name| - 1 then i else -1
  }

  /** `PurePath.stem`: the name without its final suffix. */
  function Stem(name: string): string {
    var i := SuffixStart(name);
    if i < 0 then name else name[..i]
  }

  /** `PurePath.suffix`: the final suffix, dot included, or empty. */
  function Suffix(name: string): string {
    var i := SuffixStart(name);
    if i < 0 then "" else name[i..]
  }

  /** The stem and the suffix split the name; the suffix is one dot-led extension. */
  lemma StemSuffixSplit(name: string)
    ensures Stem(name) + Suffix(name) == name
    ensures Suffix(name) == "" || (Suffix(name)[0] == '.' && |Suffix(name)| >= 2 && '.' !in Suffix(name)[1..])
    ensures Suffix(name) != "" ==> Stem(name) != ""
  {
  }

  /** `Path("clip.tar.gz").stem` is `clip.tar`: only the final extension goes. */
  lemma StemExamples()
    ensures Stem("clip.mp3") == "clip"
    ensures Stem("clip.tar.gz") == "clip.tar"
    ensures Stem(".bashrc") == ".bashrc"
    ensures Stem("notes.") == "notes."
    ensures Stem("..") == ".."
  {
    LastIndexIs("clip.mp3", '.', 4);
    LastIndexIs("clip.tar.gz", '.', 8);
    LastIndexIs(".bashrc", '.', 0);
    LastIndexIs("notes.", '.', 5);
    LastIndexIs("..", '.', 1);
  }

  const OutputDir: string := "transcriptions"

  /** `output_dir / name` for a name that is a single path component. */
  function Join(dir: string, name: string): string {
    dir + "/" + name
  }

  /** The four names written, all derived from one stem. */
  datatype BundleNames = BundleNames(txt: string, srt: string, json: string, zip: string)

  /** The stem `save_files` derives: `Path(base_name).stem`. */
  function StemOf(baseName: string): string {
    Stem(PathName(baseName))
  }

  /** The bare file names for a stem: `.txt`, `.srt`, `.json` and `_all.zip` appended. */
  function NamesFor(stem: string): BundleNames {
    BundleNames(stem + ".txt", stem + ".srt", stem + ".json", stem + "_all.zip")
  }

  /** The paths `save_files` returns, in its order: txt, srt, json, zip. */
  function PathsFor(dir: string, stem: string): BundleNames {
    var n := NamesFor(stem);
    BundleNames(Join(dir, n.txt), Join(dir, n.srt), Join(dir, n.json), Join(dir, n.zip))
  }

  /** The stem derived from any base name is a single path component. */
  lemma StemOfHasNoSlash(baseName: string)
    ensures '/' !in StemOf(baseName)
  {
    var name := PathName(baseName);
    var i := SuffixStart(name);
    if i >= 0 {
      assert forall k :: 0 <= k < i ==> name[..i][k] == name[k];
    }
  }

  /**
   The names the archive entries get (`txt_path.name` and so on) are the bare
   file names: the last component of each output path.
   */
  lemma ArchiveNamesAreBareNames(dir: string, baseName: string)
    ensures var stem := StemOf(baseName);
            var n := NamesFor(stem);
            var p := PathsFor(dir, stem);
            && PathName(p.txt) == n.txt && PathName(p.srt) == n.srt
            && PathName(p.json) == n.json && PathName(p.zip) == n.zip
  {
    var stem := StemOf(baseName);
    var n := NamesFor(stem);
    StemOfHasNoSlash(baseName);
    assert '/' !in n.txt && '/' !in n.srt && '/' !in n.json && '/' !in n.zip;
    PathNameFacts(dir, n.txt);
    PathNameFacts(dir, n.srt);
    PathNameFacts(dir, n.json);
    PathNameFacts(dir, n.zip);
  }

  /** The four output paths are pairwise different and differ from the directory. */
  lemma PathsDistinct(dir: string, stem: string)
    ensures var p := PathsFor(dir, stem);
            && p.txt != p.srt && p.txt != p.json && p.txt != p.zip
            && p.srt != p.json && p.srt != p.zip && p.json != p.zip
            && dir !in {p.txt, p.srt, p.json, p.zip}
  {
    var p := PathsFor(dir, stem);
    var k := |dir| + 1 + |stem|;
    assert p.txt[k + 1] == 't' && p.srt[k + 1] == 's';
    assert |p.txt| == |p.srt| == k + 4 && |p.json| == k + 5 && |p.zip| == k + 8;
  }

  /** One archive member: its name inside the archive and its contents. */
  datatype Entry = Entry(name: string, contents: string)

  datatype Node = Directory | TextFile(contents: string) | ZipArchive(entries: seq<Entry>)

  type FileSystem = map<string, Node>

  datatype FsError =
    | FileExists(path: string)      // mkdir where a non-directory stands
    | IsADirectory(path: string)    // a file opened for writing where a directory stands
    | FileNotFound(path: string)    // a file read that is not there

  /** `Path(dir).mkdir(exist_ok=True)`. */
  function MakeDir(fs: FileSystem, dir: string): (r: Result<FileSystem, FsError>)
    ensures r.Success? <==> (dir !in fs || fs[dir] == Directory)
    ensures r.Success? ==> r.value == fs[dir := Directory]
  {
    if dir in fs && fs[dir] != Directory then Failure(FileExists(dir))
    else Success(fs[dir := Directory])
  }

  /** `path.write_text(contents)`: replaces whatever file stood there. */
  function WriteText(fs: FileSystem, path: string, contents: string): (r: Result<FileSystem, FsError>)
    ensures r.Success? <==> (path !in fs || fs[path] != Directory)
    ensures r.Success? ==> r.value == fs[path := TextFile(contents)]
  {
    if path in fs && fs[path] == Directory then Failure(IsADirectory(path))
    else Success(fs[path := TextFile(contents)])
  }

  /** The contents of a text file, as `zipf.write` reads them. */
  function ReadText(fs: FileSystem, path: string): (r: Result<string, FsError>)
    ensures r.Success? <==> (path in fs && fs[path].TextFile?)
    ensures r.Success? ==> fs[path] == TextFile(r.value)
  {
    if path in fs && fs[path].TextFile? then Success(fs[path].contents)
    else if path in fs && fs[path] == Directory then Failure(IsADirectory(path))
    else Failure(FileNotFound(path))
  }

  /**
   `with zipfile.ZipFile(zip, 'w')` adding each source file under its bare
   name: the archive replaces whatever file stood at `zip`.
   */
  function WriteZip(fs: FileSystem, zip: string, sources: seq<(string, string)>): (r: Result<FileSystem, FsError>)
    ensures r.Success? <==> (zip !in fs || fs[zip] != Directory) && ReadEntries(fs, sources).Success?
    ensures r.Success? ==> zip in r.value && r.value[zip] == ZipArchive(ReadEntries(fs, sources).value)
    ensures r.Success? ==> r.value == fs[zip := r.value[zip]]
  {
    if zip in fs && fs[zip] == Directory then Failure(IsADirectory(zip))
    else
      match ReadEntries(fs, sources)
      case Success(entries) => Success(fs[zip := ZipArchive(entries)])
      case Failure(e) => Failure(e)
  }

  /** Reads each `(path, arcname)` pair in turn into an archive entry. */
  function ReadEntries(fs: FileSystem, sources: seq<(string, string)>): (r: Result<seq<Entry>, FsError>)
    ensures r.Success? <==> forall k :: 0 <= k < |sources| ==> sources[k].0 in fs && fs[sources[k].0].TextFile?
    ensures r.Success? ==> |r.value| == |sources|
    ensures r.Success? ==> forall k :: 0 <= k < |sources| ==>
              r.value[k].name == sources[k].1 && TextFile(r.value[k].contents) == fs[sources[k].0]
  {
    if sources == [] then Success([])
    else
      match ReadText(fs, sources[0].0)
      case Failure(e) => Failure(e)
      case Success(text) =>
        match ReadEntries(fs, sources[1..])
        case Failure(e) => Failure(e)
        case Success(rest) => Success([Entry(sources[0].1, text)] + rest)
  }

  /** What a call leaves behind: the filesystem, and the paths or the error raised. */
  datatype SaveOutcome = SaveOutcome(fs: FileSystem, result: Result<BundleNames, FsError>)

  /** `save_files(text, srt, json_data, base_name)` writing under `dir`. */
  function SaveFiles(fs: FileSystem, dir: string, text: string, srt: string, json: string, baseName: string): SaveOutcome {
    SaveUnder(fs, dir, text, srt, json, StemOf(baseName))
  }

  /** The body of `save_files` once the stem is derived: mkdir, three writes, the archive. */
  function SaveUnder(fs: FileSystem, dir: string, text: string, srt: string, json: string, stem: string): SaveOutcome {
    var n := NamesFor(stem);
    var p := PathsFor(dir, stem);
    match MakeDir(fs, dir)
    case Failure(e) => SaveOutcome(fs, Failure(e))
    case Success(fs1) =>
      match WriteText(fs1, p.txt, text)
      case Failure(e) => SaveOutcome(fs1, Failure(e))
      case Success(fs2) =>
        match WriteText(fs2, p.srt, srt)
        case Failure(e) => SaveOutcome(fs2, Failure(e))
        case Success(fs3) =>
          match WriteText(fs3, p.json, json)
          case Failure(e) => SaveOutcome(fs3, Failure(e))
          case Success(fs4) =>
            match WriteZip(fs4, p.zip, [(p.txt, n.txt), (p.srt, n.srt), (p.json, n.json)])
            case Failure(e) => SaveOutcome(fs4, Failure(e))
            case Success(fs5) => SaveOutcome(fs5, Success(p))
  }

  /** No directory stands where the call must write a file, and nothing but a directory at `dir`. */
  predicate Writable(fs: FileSystem, dir: string, stem: string) {
    var p := PathsFor(dir, stem);
    && (dir !in fs || fs[dir] == Directory)
    && (p.txt !in fs || fs[p.txt] != Directory)
    && (p.srt !in fs || fs[p.srt] != Directory)
    && (p.json !in fs || fs[p.json] != Directory)
    && (p.zip !in fs || fs[p.zip] != Directory)
  }

  /** The archive `save_files` writes: the three files under their bare names, txt, srt, json. */
  function ExpectedArchive(stem: string, text: string, srt: string, json: string): Node {
    var n := NamesFor(stem);
    ZipArchive([Entry(n.txt, text), Entry(n.srt, srt), Entry(n.json, json)])
  }

  /** The filesystem after a successful call. */
  function Saved(fs: FileSystem, dir: string, text: string, srt: string, json: string, stem: string): FileSystem {
    var p := PathsFor(dir, stem);
    fs[dir := Directory][p.txt := TextFile(text)][p.srt := TextFile(srt)]
      [p.json := TextFile(json)][p.zip := ExpectedArchive(stem, text, srt, json)]
  }

  /** The archive step reads back exactly the three texts just written. */
  lemma ReadWrittenEntries(fs: FileSystem, dir: string, text: string, srt: string, json: string, stem: string)
    ensures var n := NamesFor(stem);
            var p := PathsFor(dir, stem);
            var fs4 := fs[dir := Directory][p.txt := TextFile(text)][p.srt := TextFile(srt)][p.json := TextFile(json)];
            ReadEntries(fs4, [(p.txt, n.txt), (p.srt, n.srt), (p.json, n.json)])
              == Success([Entry(n.txt, text), Entry(n.srt, srt), Entry(n.json, json)])
  {
    var n := NamesFor(stem);
    var p := PathsFor(dir, stem);
    PathsDistinct(dir, stem);
    var fs4 := fs[dir := Directory][p.txt := TextFile(text)][p.srt := TextFile(srt)][p.json := TextFile(json)];
    var sources := [(p.txt, n.txt), (p.srt, n.srt), (p.json, n.json)];
    var r := ReadEntries(fs4, sources);
    assert fs4[p.txt] == TextFile(text) && fs4[p.srt] == TextFile(srt) && fs4[p.json] == TextFile(json);
    assert r.Success?;
    assert r.value == [Entry(n.txt, text), Entry(n.srt, srt), Entry(n.json, json)];
  }

  /** The call succeeds exactly when nothing stands in the way of the directory or the four files. */
  lemma SaveSucceedsIff(fs: FileSystem, dir: string, text: string, srt: string, json: string, stem: string)
    ensures SaveUnder(fs, dir, text, srt, json, stem).result.Success? <==> Writable(fs, dir, stem)
  {
    PathsDistinct(dir, stem);
    ReadWrittenEntries(fs, dir, text, srt, json, stem);
  }

  /**
   On success the paths returned are the four output paths, the directory
   exists, they hold the three texts and the archive, and no other path changes.
   */
  lemma SaveSpec(fs: FileSystem, dir: string, text: string, srt: string, json: string, stem: string)
    requires Writable(fs, dir, stem)
    ensures SaveUnder(fs, dir, text, srt, json, stem) == SaveOutcome(Saved(fs, dir, text, srt, json, stem), Success(PathsFor(dir, stem)))
  {
    PathsDistinct(dir, stem);
    ReadWrittenEntries(fs, dir, text, srt, json, stem);
  }

  /** `save_files` on a base name: the save under the stem it derives, with the same result and filesystem. */
  lemma SaveFilesSpec(fs: FileSystem, dir: string, text: string, srt: string, json: string, baseName: string)
    requires Writable(fs, dir, StemOf(baseName))
    ensures var stem := StemOf(baseName);
            SaveFiles(fs, dir, text, srt, json, baseName)
              == SaveOutcome(Saved(fs, dir, text, srt, json, stem), Success(PathsFor(dir, stem)))
  {
    SaveSpec(fs, dir, text, srt, json, StemOf(baseName));
  }

  /** After a save, each output path holds what was written there. */
  lemma SavedHolds(fs: FileSystem, dir: string, text: string, srt: string, json: string, stem: string)
    ensures var out := Saved(fs, dir, text, srt, json, stem);
            var p := PathsFor(dir, stem);
            && p.txt in out && out[p.txt] == TextFile(text)
            && p.srt in out && out[p.srt] == TextFile(srt)
            && p.json in out && out[p.json] == TextFile(json)
            && p.zip in out && out[p.zip] == ExpectedArchive(stem, text, srt, json)
            && dir in out && out[dir] == Directory
  {
    PathsDistinct(dir, stem);
  }

  /** Extracting the archive gives back, under each entry's name, the file written beside it. */
  lemma ArchiveMatchesFiles(fs: FileSystem, dir: string, text: string, srt: string, json: string, stem: string)
    ensures var out := Saved(fs, dir, text, srt, json, stem);
            var zip := PathsFor(dir, stem).zip;
            && zip in out && out[zip].ZipArchive?
            && |out[zip].entries| == 3
            && forall e :: e in out[zip].entries ==>
                 Join(dir, e.name) in out && out[Join(dir, e.name)] == TextFile(e.contents)
  {
    PathsDistinct(dir, stem);
  }

  /** After a successful call the same paths are still writable. */
  lemma SavedWritable(fs: FileSystem, dir: string, text: string, srt: string, json: string, stem: string)
    ensures Writable(Saved(fs, dir, text, srt, json, stem), dir, stem)
  {
    PathsDistinct(dir, stem);
  }

  /** Writing the same bundle over itself leaves the filesystem as it was. */
  lemma SavedTwice(fs: FileSystem, dir: string, text: string, srt: string, json: string, stem: string)
    ensures var out := Saved(fs, dir, text, srt, json, stem);
            Saved(out, dir, text, srt, json, stem) == out
  {
    PathsDistinct(dir, stem);
  }

  /** Saving the same texts under the same stem again changes nothing. */
  lemma SaveIdempotent(fs: FileSystem, dir: string, text: string, srt: string, json: string, stem: string)
    requires Writable(fs, dir, stem)
    ensures var out := SaveUnder(fs, dir, text, srt, json, stem);
            SaveUnder(out.fs, dir, text, srt, json, stem) == out
  {
    SaveSpec(fs, dir, text, srt, json, stem);
    var out := Saved(fs, dir, text, srt, json, stem);
    SavedWritable(fs, dir, text, srt, json, stem);
    SaveSpec(out, dir, text, srt, json, stem);
    SavedTwice(fs, dir, text, srt, json, stem);
  }

  /**
   No rollback: when a directory stands at the archive path, the call raises
   after the three text files have already been replaced.
   */
  lemma SavePartial(fs: FileSystem, dir: string, text: string, srt: string, json: string, stem: string)
    requires var p := PathsFor(dir, stem);
             && (dir !in fs || fs[dir] == Directory)
             && (p.txt !in fs || fs[p.txt] != Directory)
             && (p.srt !in fs || fs[p.srt] != Directory)
             && (p.json !in fs || fs[p.json] != Directory)
             && p.zip in fs && fs[p.zip] == Directory
    ensures var out := SaveUnder(fs, dir, text, srt, json, stem);
            var p := PathsFor(dir, stem);
            && out.result == Failure(IsADirectory(p.zip))
            && out.fs == fs[dir := Directory][p.txt := TextFile(text)][p.srt := TextFile(srt)][p.json := TextFile(json)]
  {
    PathsDistinct(dir, stem);
  }

  /** A single ordinary component is its own name; a trailing `/` or `/.` does not change the name. */
  /** The empty path and `.` have the empty name, as `Path("").name` and `Path(".").name` do. */
  lemma PathNameOfEmpty()
    ensures PathName("") == "" && PathName(".") == ""
  {
    assert LastIndexOf(".", '/') == -1;
  }

  lemma PathNameFacts(p: string, c: string)
    ensures '/' !in c && c != "" && c != "." ==> PathName(c) == c
    ensures PathName(p + "/") == PathName(p)
    ensures PathName(p + "/.") == PathName(p)
    ensures '/' !in c && c != "" && c != "." ==> PathName(p + "/" + c) == c
  {
    if '/' !in c {
      assert LastIndexOf(c, '/') == -1;
      var q := p + "/" + c;
      LastIndexIs(q, '/', |p|);
      assert q[|p| + 1..] == c;
    }
    var q1 := p + "/";
    LastIndexIs(q1, '/', |p|);
    assert q1[..|p|] == p;
    var q2 := p + "/.";
    LastIndexIs(q2, '/', |p|);
    assert q2[..|p|] == p;
    assert q2[|p| + 1..] == ".";
  }

  /** Only the final extension goes: `name.ext` has stem `name`, whatever dots `name` holds. */
  lemma StemOfExtended(name: string, ext: string)
    requires name != "" && ext != "" && '.' !in ext
    ensures Stem(name + "." + ext) == name
    ensures Suffix(name + "." + ext) == "." + ext
  {
    var s := name + "." + ext;
    LastIndexIs(s, '.', |name|);
    assert s[..|name|] == name;
    assert s[|name|..] == "." + ext;
  }

  /**
   An upload called `name.ext` (one path component) gives `name.txt`,
   `name.srt`, `name.json` and `name_all.zip` under the output directory.
   */
  lemma UploadNames(name: string, ext: string)
    requires name != "" && ext != "" && '.' !in ext
    requires '/' !in name && '/' !in ext
    ensures StemOf(name + "." + ext) == name
  {
    var s := name + "." + ext;
    assert '/' !in s;
    assert s != "." by {
      assert |s| >= 3;
    }
    PathNameFacts("", s);
    StemOfExtended(name, ext);
  }
}
