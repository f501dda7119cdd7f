/** Paths, the file system the checker consults, and `_resolve_module_path`:
    a walk up the parents for a leading-dot module name, an upward search for
    the project root for an absolute one, then the choice between `M.py` and
    `M/__init__.py`. */
module Paths {
  import opened Text
  import opened Ast

  /** An absolute path as its components: `/a/b.py` is `["a", "b.py"]` and the
      file-system root is `[]`. `os.path.join` is concatenation. */
  type Path = seq<string>

  /** What reading and parsing one readable file gives: the module's
      statements and the source's lines, or the `SyntaxError` raised. */
  datatype SourceFile =
    | Parsed(tree: seq<Node>, lines: seq<string>)
    | SyntaxErr(lineno: Option<int>, offset: Option<int>, msg: string)

  /** The paths that exist, and the readable files among them; a path with
      no entry in `files` raises `OSError` when opened. */
  datatype FileSystem = FileSystem(existing: set<Path>, files: map<Path, SourceFile>)

  const PyprojectFile := "pyproject.toml"
  const SetupFile := "setup.py"
  const InitFile := "__init__.py"
  const PySuffix := ".py"

  predicate Exists(fs: FileSystem, p: Path) {
    p in fs.existing
  }

  /** `os.path.dirname`: the root is its own parent. */
  function Dirname(p: Path): (r: Path)
    ensures p == [] ==> r == []
    ensures p != [] ==> |r| == |p| - 1 && r == p[..|r|]
  {
    if p == [] then [] else p[..|p| - 1]
  }

  /** `dirname` applied `k` times: the prefix `k` components shorter, or the root. */
  function Ancestor(p: Path, k: nat): (r: Path)
    ensures r == p[..if k <= |p| then |p| - k else 0]
    decreases k
  {
    if k == 0 then p else Ancestor(Dirname(p), k - 1)
  }

  /** The number of leading dots of a module name: `len(s) - len(s.lstrip('.'))`. */
  function LeadingDots(s: string): (r: nat)
    ensures r <= |s|
    ensures forall i :: 0 <= i < r ==> s[i] == '.'
    ensures r == |s| || s[r] != '.'
    decreases |s|
  {
    if s != [] && s[0] == '.' then 1 + LeadingDots(s[1..]) else 0
  }

  /** `dir` holds `pyproject.toml` or `setup.py`. */
  predicate HasMarker(fs: FileSystem, dir: Path) {
    Exists(fs, dir + [PyprojectFile]) || Exists(fs, dir + [SetupFile])
  }

  /** The upward search for the project root. The loop stops at the root,
      which is its own parent, so the root itself is never examined. */
  function ProjectRoot(fs: FileSystem, dir: Path): (r: Option<Path>)
    ensures r.Some? ==>
      && r.value != [] && |r.value| <= |dir| && r.value == dir[..|r.value|]
      && HasMarker(fs, r.value)
      && forall k :: |r.value| < k <= |dir| ==> !HasMarker(fs, dir[..k])
    ensures r.None? ==> forall k :: 0 < k <= |dir| ==> !HasMarker(fs, dir[..k])
    decreases |dir|
  {
    if dir == [] then None
    else if HasMarker(fs, dir) then Some(dir)
    else
      var up := ProjectRoot(fs, Dirname(dir));
      assert forall k :: 0 <= k < |dir| ==> Dirname(dir)[..k] == dir[..k];
      assert dir[..|dir|] == dir;
      up
  }

  /** `file_path + '.py'`: the suffix goes on the last component. */
  function WithSuffix(p: Path, suffix: string): (r: Path)
    requires p != []
    ensures |r| == |p| && r[..|p| - 1] == p[..|p| - 1] && r[|p| - 1] == p[|p| - 1] + suffix
  {
    p[..|p| - 1] + [p[|p| - 1] + suffix]
  }

  /** The directory a module name is looked up in: for a relative name the
      current file's directory walked up one parent fewer than it has dots; for
      an absolute name the project root, or the current file's directory when
      no project root is found. */
  function BaseDir(fs: FileSystem, moduleName: string, currentFile: Path): Path {
    var currentDir := Dirname(currentFile);
    if moduleName != [] && moduleName[0] == '.' then
      Ancestor(currentDir, LeadingDots(moduleName) - 1)
    else
      match ProjectRoot(fs, currentDir)
      case Some(root) => root
      case None => currentDir
  }

  /** The dotted parts of a module name, leading dots removed. */
  function ModuleParts(moduleName: string): (r: seq<string>)
    ensures |r| >= 1
  {
    Split(moduleName[LeadingDots(moduleName)..], '.')
  }

  /** `file_path` before the existence tests. */
  function ModuleBase(fs: FileSystem, moduleName: string, currentFile: Path): (r: Path)
    ensures r != []
  {
    BaseDir(fs, moduleName, currentFile) + ModuleParts(moduleName)
  }

  /** `file_path.py` if it exists, else `file_path/__init__.py` if it exists, else nothing. */
  function PickFile(fs: FileSystem, base: Path): Option<Path>
    requires base != []
  {
    var py := WithSuffix(base, PySuffix);
    if Exists(fs, py) then Some(py)
    else if Exists(fs, base + [InitFile]) then Some(base + [InitFile])
    else None
  }

  /** `_resolve_module_path(module_name, current_file)`. */
  function Resolve(fs: FileSystem, moduleName: string, currentFile: Path): Option<Path> {
    PickFile(fs, ModuleBase(fs, moduleName, currentFile))
  }

  // ---------------------------------------------------------------------------
  // Properties

  /** A resolved path exists and is the module's `.py` file or, only when
      that does not exist, its package's `__init__.py`; nothing is resolved
      exactly when neither exists. So `.py` wins when both exist. */
  lemma PickFileChoice(fs: FileSystem, base: Path)
    requires base != []
    ensures var r := PickFile(fs, base);
      && (r.Some? ==> Exists(fs, r.value))
      && (r.Some? ==> r.value == WithSuffix(base, PySuffix)
                      || (r.value == base + [InitFile] && !Exists(fs, WithSuffix(base, PySuffix))))
      && (Exists(fs, WithSuffix(base, PySuffix)) ==> r == Some(WithSuffix(base, PySuffix)))
      && (r.None? <==> !Exists(fs, WithSuffix(base, PySuffix)) && !Exists(fs, base + [InitFile]))
  {
  }

  /** A module name with `k` leading dots is looked up `k - 1` parents above
      the current file's directory (at the root when there are not that many). */
  lemma RelativeLookup(fs: FileSystem, moduleName: string, currentFile: Path)
    requires moduleName != [] && moduleName[0] == '.'
    ensures var k := LeadingDots(moduleName);
      var currentDir := Dirname(currentFile);
      && k >= 1
      && ModuleBase(fs, moduleName, currentFile)
         == currentDir[..if k - 1 <= |currentDir| then |currentDir| - (k - 1) else 0]
            + Split(moduleName[k..], '.')
  {
  }

  /** The first `k` components of `dir` form a directory other than the
      root that holds `pyproject.toml` or `setup.py`. */
  predicate MarkedAt(fs: FileSystem, dir: Path, k: int) {
    0 < k <= |dir| && HasMarker(fs, dir[..k])
  }

  /** An absolute module name is looked up under the nearest directory, from
      the current file's directory upward and excluding the root, that holds
      `pyproject.toml` or `setup.py`; when there is no such directory, under
      the current file's directory. */
  lemma AbsoluteLookup(fs: FileSystem, moduleName: string, currentFile: Path)
    requires moduleName == [] || moduleName[0] != '.'
    ensures var currentDir := Dirname(currentFile);
      var dir := BaseDir(fs, moduleName, currentFile);
      && ModuleBase(fs, moduleName, currentFile) == dir + Split(moduleName, '.')
      && ((exists k :: MarkedAt(fs, currentDir, k)) ==>
            && |dir| <= |currentDir| && dir == currentDir[..|dir|]
            && MarkedAt(fs, currentDir, |dir|)
            && forall k :: |dir| < k ==> !MarkedAt(fs, currentDir, k))
      && ((forall k :: !MarkedAt(fs, currentDir, k)) ==> dir == currentDir)
  {
    assert LeadingDots(moduleName) == 0;
    assert moduleName[0..] == moduleName;
    var currentDir := Dirname(currentFile);
    var root := ProjectRoot(fs, currentDir);
    if root.Some? {
      assert MarkedAt(fs, currentDir, |root.value|);
    } else {
      assert forall k :: !MarkedAt(fs, currentDir, k);
    }
  }
}
