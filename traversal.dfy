/** The checker's walk over one module, as a function of the checker's state:
    `visit_ImportFrom`, `visit_ClassDef`, `visit_Call` and
    `_load_imported_model`, each followed by `generic_visit`, in the order
    `ast.NodeVisitor` visits the tree (each node before its children, children
    in field order), and `check_file` around it. */
module Traversal {
  import opened Text
  import opened Ast
  import opened Fields
  import opened Directive
  import opened Validator
  import opened Paths

  /** What a checker reads and does not change: the file it checks, if it was
      given one (`current_file`, which the checker a load creates lacks), the
      file's lines, and the file system. */
  datatype Env = Env(currentFile: Option<Path>, lines: seq<string>, fs: FileSystem)

  /** What a checker changes: `model_definitions`, `imported_models`,
      `processed_files` and `errors`. */
  datatype State = State(defs: map<string, seq<FieldInfo>>, imports: map<string, string>,
                         processed: set<Path>, errors: seq<Finding>)

  /** A checker without a current file never loads imports, so the walk a load
      starts is one level down and goes no further. */
  function Level(env: Env): nat {
    if env.currentFile.Some? then 1 else 0
  }

  /** The environment of the checker `_load_imported_model` creates. */
  function NestedEnv(fs: FileSystem): Env {
    Env(None, [], fs)
  }

  function EmptyState(processed: set<Path>): State {
    State(map[], map[], processed, [])
  }

  /** What opening and parsing `p` gives, or `None` when it raises `OSError`. */
  function ReadSource(fs: FileSystem, p: Path): Option<SourceFile> {
    if p in fs.files then Some(fs.files[p]) else None
  }

  // ---------------------------------------------------------------------------
  // The steps

  /** `alias.asname or alias.name`. */
  function BoundName(a: Alias): string {
    if a.asname.Some? && a.asname.value != "" then a.asname.value else a.name
  }

  /** Alias `a` binds the local name `k`. */
  predicate Binds(a: Alias, k: string) {
    a.name != "*" && BoundName(a) == k
  }

  /** The loop of `visit_ImportFrom`: every alias but `*` maps its local name
      to the module, later aliases over earlier ones. */
  function BindAll(imports: map<string, string>, names: seq<Alias>, moduleName: string): map<string, string>
    decreases |names|
  {
    if names == [] then imports
    else
      var m := BindAll(imports, names[..|names| - 1], moduleName);
      var a := names[|names| - 1];
      if a.name == "*" then m else m[BoundName(a) := moduleName]
  }

  /** `visit_ImportFrom`: nothing when the statement names no module. */
  function BindImports(s: State, n: Node): State
    requires n.ImportFrom?
  {
    if n.moduleName.None? || n.moduleName.value == "" then s
    else s.(imports := BindAll(s.imports, n.names, n.moduleName.value))
  }

  /** `visit_ClassDef` before `generic_visit`: a model class is entered under
      its name, replacing an entry of that name. */
  function RegisterClass(s: State, n: Node): State
    requires n.ClassDef?
  {
    if IsModelClass(n.bases) then s.(defs := s.defs[n.name := FieldsOf(n.body)]) else s
  }

  /** The class name a call's function expression gives. */
  function CalledName(func: Node): Option<string> {
    match func
    case Name(id) => Some(id)
    case Attribute(_, attr) => Some(attr)
    case _ => None
  }

  /** The merge loop of `_load_imported_model`: a nested definition is taken
      when it is the model being loaded or its name is not yet defined. */
  function MergeDefs(defs: map<string, seq<FieldInfo>>, nested: map<string, seq<FieldInfo>>, name: string)
    : map<string, seq<FieldInfo>>
  {
    map n | n in defs.Keys + nested.Keys ::
      if n in nested && (n == name || n !in defs) then nested[n] else defs[n]
  }

  // ---------------------------------------------------------------------------
  // The walk

  function VisitNode(env: Env, s: State, n: Node): State
    decreases Level(env), Size(n), 1
  {
    match n
    case Name(_) => s
    case Attribute(v, _) => VisitNode(env, s, v)
    case Subscript(v, sl) => VisitNode(env, VisitNode(env, s, v), sl)
    case Call(f, args, kws, _, _) =>
      VisitKeywords(env, VisitNodes(env, VisitNode(env, CallStep(env, s, n), f), args), kws)
    case ClassDef(_, bases, kws, body, decs) =>
      VisitNodes(env, VisitNodes(env, VisitKeywords(env, VisitNodes(env, RegisterClass(s, n), bases), kws), body), decs)
    case AnnAssign(t, a, v) =>
      var s2 := VisitNode(env, VisitNode(env, s, t), a);
      if v.Some? then VisitNode(env, s2, v.value) else s2
    case ImportFrom(_, _, _) => BindImports(s, n)
    case Other(cs) => VisitNodes(env, s, cs)
  }

  /** The nodes of a list, in order. */
  function VisitNodes(env: Env, s: State, ns: seq<Node>): State
    decreases Level(env), SizeSeq(ns), 2
  {
    if ns == [] then s
    else
      SizeSeqElement(ns, |ns| - 1);
      VisitNode(env, VisitNodes(env, s, ns[..|ns| - 1]), ns[|ns| - 1])
  }

  /** The values of a list of keyword arguments, in order. */
  function VisitKeywords(env: Env, s: State, ks: seq<Keyword>): State
    decreases Level(env), SizeKeywords(ks), 2
  {
    if ks == [] then s
    else
      assert SizeKeywords(ks) == SizeKeywords(ks[..|ks| - 1]) + 1 + Size(ks[|ks| - 1].value);
      VisitNode(env, VisitKeywords(env, s, ks[..|ks| - 1]), ks[|ks| - 1].value)
  }

  /** `visit_Call` before `generic_visit`: with a class name, a checker that
      has a current file first loads the name's import, then a call of a
      known model is checked. */
  function CallStep(env: Env, s: State, call: Node): State
    requires call.Call?
    decreases Level(env), Size(call), 0
  {
    match CalledName(call.func)
    case None => s
    case Some(cn) =>
      if cn == "" then s
      else
        var s1 := if env.currentFile.Some? then LoadImported(env, s, cn) else s;
        if cn in s1.defs then
          s1.(errors := s1.errors + InstantiationFindings(cn, s1.defs[cn], call.keywords,
                                                          DirectiveAt(env.lines, call.lineno),
                                                          call.lineno, call.colOffset))
        else s1
  }

  /** `_load_imported_model(name, current_file)`. */
  function LoadImported(env: Env, s: State, name: string): State
    requires env.currentFile.Some?
    decreases Level(env), 0, 0
  {
    if name in s.defs || name !in s.imports then s
    else
      match Resolve(env.fs, s.imports[name], env.currentFile.value)
      case None => s
      case Some(p) =>
        if p in s.processed then s
        else
          var processed := s.processed + {p};
          match ReadSource(env.fs, p)
          case Some(Parsed(tree, _)) =>
            var nested := VisitNodes(NestedEnv(env.fs), EmptyState(processed), tree);
            s.(defs := MergeDefs(s.defs, nested.defs, name), processed := nested.processed)
          case _ => s.(processed := processed)
  }

  /** What `check_file` gives: its findings, or the `OSError` of opening the file. */
  datatype CheckOutcome = Reported(findings: seq<Finding>) | ReadFailed

  /** `e.lineno or 0`. */
  function OrZero(x: Option<int>): int {
    if x.Some? then x.value else 0
  }

  /** `check_file(path)` for a path already made absolute. */
  function CheckFileSpec(fs: FileSystem, path: Path): CheckOutcome {
    match ReadSource(fs, path)
    case None => ReadFailed
    case Some(SyntaxErr(lineno, offset, msg)) => Reported([SyntaxFinding(OrZero(lineno), OrZero(offset), msg)])
    case Some(Parsed(tree, lines)) =>
      Reported(VisitNodes(Env(Some(path), lines, fs), EmptyState({path}), tree).errors)
  }
}
