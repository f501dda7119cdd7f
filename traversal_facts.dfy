/** What the walk of `Traversal` promises. */
module TraversalFacts {
  import opened Text
  import opened Ast
  import opened Fields
  import opened Directive
  import opened Validator
  import opened Paths
  import opened Traversal

  // ---------------------------------------------------------------------------
  // What a subtree declares

  /** What the statements of a subtree declare: each model class statement,
      nested ones included, as its name and the fields `visit_ClassDef`
      registers for it, and the local names `from M import ...` statements
      bind. */
  datatype Decls = Decls(models: set<(string, seq<FieldInfo>)>, bound: set<string>)

  const NoDecls := Decls({}, {})

  function Plus(a: Decls, b: Decls): Decls {
    Decls(a.models + b.models, a.bound + b.bound)
  }

  /** The names of the declared model classes. */
  function Names(d: Decls): set<string> {
    set m | m in d.models :: m.0
  }

  /** The local names one `from M import ...` statement binds: none without a
      module, otherwise every alias but `*`. */
  function BoundNames(n: Node): set<string>
    requires n.ImportFrom?
  {
    if n.moduleName.None? || n.moduleName.value == "" then {}
    else set i | 0 <= i < |n.names| && n.names[i].name != "*" :: BoundName(n.names[i])
  }

  /** The model class a class statement is itself, if it is one. */
  function OwnDecls(c: Node): Decls
    requires c.ClassDef?
  {
    Decls(if IsModelClass(c.bases) then {(c.name, FieldsOf(c.body))} else {}, {})
  }

  function DeclsOf(n: Node): Decls
    decreases Size(n), 1
  {
    match n
    case Name(_) => NoDecls
    case Attribute(v, _) => DeclsOf(v)
    case Subscript(v, sl) => Plus(DeclsOf(v), DeclsOf(sl))
    case Call(f, args, kws, _, _) => Plus(Plus(DeclsOf(f), DeclsOfSeq(args)), DeclsOfKeywords(kws))
    case ClassDef(_, _, _, _, _) => Plus(OwnDecls(n), InnerDecls(n))
    case AnnAssign(t, a, v) => Plus(Plus(DeclsOf(t), DeclsOf(a)), if v.Some? then DeclsOf(v.value) else NoDecls)
    case ImportFrom(_, _, _) => Decls({}, BoundNames(n))
    case Other(cs) => DeclsOfSeq(cs)
  }

  /** What the children of a class statement declare, in visiting order. */
  function InnerDecls(c: Node): Decls
    requires c.ClassDef?
    decreases Size(c), 0
  {
    Plus(Plus(Plus(DeclsOfSeq(c.bases), DeclsOfKeywords(c.classKeywords)), DeclsOfSeq(c.body)), DeclsOfSeq(c.decorators))
  }

  function DeclsOfSeq(ns: seq<Node>): Decls
    decreases SizeSeq(ns), 2
  {
    if ns == [] then NoDecls
    else
      SizeSeqElement(ns, |ns| - 1);
      Plus(DeclsOfSeq(ns[..|ns| - 1]), DeclsOf(ns[|ns| - 1]))
  }

  function DeclsOfKeywords(ks: seq<Keyword>): Decls
    decreases SizeKeywords(ks), 2
  {
    if ks == [] then NoDecls
    else
      assert SizeKeywords(ks) == SizeKeywords(ks[..|ks| - 1]) + 1 + Size(ks[|ks| - 1].value);
      Plus(DeclsOfKeywords(ks[..|ks| - 1]), DeclsOf(ks[|ks| - 1].value))
  }

  /** The model classes declared inside a class statement, not counting itself. */
  function InnerClassNames(c: Node): set<string>
    requires c.ClassDef?
  {
    Names(InnerDecls(c))
  }

  function ClassNamesSeq(ns: seq<Node>): set<string> {
    Names(DeclsOfSeq(ns))
  }

  lemma NamesPlus(a: Decls, b: Decls)
    ensures Names(Plus(a, b)) == Names(a) + Names(b)
  {
    forall x | x in Names(Plus(a, b)) ensures x in Names(a) + Names(b) {
      var m :| m in Plus(a, b).models && m.0 == x;
      if m in a.models {
        assert x in Names(a);
      } else {
        assert x in Names(b);
      }
    }
    forall x | x in Names(a) + Names(b) ensures x in Names(Plus(a, b)) {
      if x in Names(a) {
        var m :| m in a.models && m.0 == x;
        assert m in Plus(a, b).models;
      } else {
        var m :| m in b.models && m.0 == x;
        assert m in Plus(a, b).models;
      }
    }
  }

  /** A pair that is declared has its name among the declared names. */
  lemma NameOfModel(d: Decls, k: string, f: seq<FieldInfo>)
    requires (k, f) in d.models
    ensures k in Names(d)
  {
    assert (k, f).0 == k;
  }

  // ---------------------------------------------------------------------------
  // What one stretch of the walk keeps

  predicate AllFieldFindings(es: seq<Finding>) {
    forall i :: 0 <= i < |es| ==> es[i].FieldFinding?
  }

  /** From `s` to `t`, with `d` what the walked statements declare:
      findings are only appended, and only field findings; no processed path
      is dropped, every path that becomes processed exists, and a checker
      without a current file processes nothing; the bound names grow by
      exactly the names the statements bind; no definition is dropped, every
      declared model class has an entry, and an entry present before is
      replaced only by a declared model class of that name. For a checker
      without a current file, which loads nothing, every entry is one it had
      before or a declared model class with exactly that class's fields. */
  predicate Step(env: Env, s: State, t: State, d: Decls) {
    && s.errors <= t.errors
    && (AllFieldFindings(s.errors) ==> AllFieldFindings(t.errors))
    && s.processed <= t.processed
    && (forall p :: p in t.processed && p !in s.processed ==> Exists(env.fs, p))
    && (Level(env) == 0 ==> t.processed == s.processed)
    && t.imports.Keys == s.imports.Keys + d.bound
    && s.defs.Keys + Names(d) <= t.defs.Keys
    && (forall k :: k in s.defs && k !in Names(d) ==> t.defs[k] == s.defs[k])
    && (Level(env) == 0 ==> t.defs.Keys <= s.defs.Keys + Names(d))
    && (Level(env) == 0 ==>
          forall k :: k in t.defs ==> (k in s.defs && t.defs[k] == s.defs[k]) || (k, t.defs[k]) in d.models)
  }

  lemma StepTrans(env: Env, s: State, t: State, u: State, a: Decls, b: Decls)
    requires Step(env, s, t, a) && Step(env, t, u, b)
    ensures Step(env, s, u, Plus(a, b))
  {
    NamesPlus(a, b);
    assert s.errors <= u.errors by {
      assert u.errors[..|s.errors|] == t.errors[..|t.errors|][..|s.errors|];
    }
  }

  /** Visiting the children of a class statement. */
  function VisitInner(env: Env, s: State, c: Node): State
    requires c.ClassDef?
    decreases Level(env), Size(c), 0
  {
    VisitNodes(env, VisitNodes(env, VisitKeywords(env, VisitNodes(env, s, c.bases), c.classKeywords), c.body), c.decorators)
  }

  lemma {:induction false} VisitNodeStep(env: Env, s: State, n: Node)
    ensures Step(env, s, VisitNode(env, s, n), DeclsOf(n))
    decreases Level(env), Size(n), 2
  {
    match n
    case Name(_) =>
    case Attribute(v, _) =>
      VisitNodeStep(env, s, v);
    case Subscript(v, sl) =>
      var s1 := VisitNode(env, s, v);
      VisitNodeStep(env, s, v);
      VisitNodeStep(env, s1, sl);
      StepTrans(env, s, s1, VisitNode(env, s1, sl), DeclsOf(v), DeclsOf(sl));
    case Call(_, _, _, _, _) =>
      CallNodeStep(env, s, n);
    case ClassDef(_, _, _, _, _) =>
      ClassNodeStep(env, s, n);
    case AnnAssign(_, _, _) =>
      AnnAssignStep(env, s, n);
    case ImportFrom(_, _, _) =>
      ImportFromKeys(s, n);
    case Other(cs) =>
      VisitNodesStep(env, s, cs);
  }

  lemma {:induction false} CallNodeStep(env: Env, s: State, n: Node)
    requires n.Call?
    ensures Step(env, s, VisitNode(env, s, n), DeclsOf(n))
    decreases Level(env), Size(n), 1
  {
    var s1 := CallStep(env, s, n);
    CallStepStep(env, s, n);
    CallChildrenStep(env, s1, n);
    assert VisitNode(env, s, n) == VisitCallChildren(env, s1, n);
    StepTrans(env, s, s1, VisitNode(env, s, n), NoDecls, DeclsOf(n));
    assert Plus(NoDecls, DeclsOf(n)) == DeclsOf(n);
  }

  /** Visiting the children of a call, after the call itself is checked. */
  function VisitCallChildren(env: Env, s: State, call: Node): State
    requires call.Call?
    decreases Level(env), Size(call), 0
  {
    VisitKeywords(env, VisitNodes(env, VisitNode(env, s, call.func), call.args), call.keywords)
  }

  lemma {:induction false} CallChildrenStep(env: Env, s: State, n: Node)
    requires n.Call?
    ensures Step(env, s, VisitCallChildren(env, s, n), DeclsOf(n))
    decreases Level(env), Size(n), 0
  {
    var s2 := VisitNode(env, s, n.func);
    var s3 := VisitNodes(env, s2, n.args);
    VisitNodeStep(env, s, n.func);
    VisitNodesStep(env, s2, n.args);
    VisitKeywordsStep(env, s3, n.keywords);
    StepTrans(env, s, s2, s3, DeclsOf(n.func), DeclsOfSeq(n.args));
    StepTrans(env, s, s3, VisitKeywords(env, s3, n.keywords), Plus(DeclsOf(n.func), DeclsOfSeq(n.args)), DeclsOfKeywords(n.keywords));
  }

  lemma {:induction false} ClassNodeStep(env: Env, s: State, n: Node)
    requires n.ClassDef?
    ensures Step(env, s, VisitNode(env, s, n), DeclsOf(n))
    decreases Level(env), Size(n), 1
  {
    var s0 := RegisterClass(s, n);
    NamesOwn(n);
    InnerStep(env, s0, n);
    assert VisitNode(env, s, n) == VisitInner(env, s0, n);
    StepTrans(env, s, s0, VisitNode(env, s, n), OwnDecls(n), InnerDecls(n));
  }

  lemma {:induction false} AnnAssignStep(env: Env, s: State, n: Node)
    requires n.AnnAssign?
    ensures Step(env, s, VisitNode(env, s, n), DeclsOf(n))
    decreases Level(env), Size(n), 1
  {
    var s1 := VisitNode(env, s, n.target);
    var s2 := VisitNode(env, s1, n.annotation);
    VisitNodeStep(env, s, n.target);
    VisitNodeStep(env, s1, n.annotation);
    StepTrans(env, s, s1, s2, DeclsOf(n.target), DeclsOf(n.annotation));
    if n.initializer.Some? {
      VisitNodeStep(env, s2, n.initializer.value);
      StepTrans(env, s, s2, VisitNode(env, s2, n.initializer.value),
                Plus(DeclsOf(n.target), DeclsOf(n.annotation)), DeclsOf(n.initializer.value));
    } else {
      assert Plus(Plus(DeclsOf(n.target), DeclsOf(n.annotation)), NoDecls) == Plus(DeclsOf(n.target), DeclsOf(n.annotation));
    }
  }

  /** A class statement declares its own name exactly when it is a model class. */
  lemma NamesOwn(c: Node)
    requires c.ClassDef?
    ensures Names(OwnDecls(c)) == if IsModelClass(c.bases) then {c.name} else {}
  {
    if IsModelClass(c.bases) {
      NameOfModel(OwnDecls(c), c.name, FieldsOf(c.body));
    }
  }

  /** The bindings an import statement adds are exactly its bound names. */
  lemma ImportFromKeys(s: State, n: Node)
    requires n.ImportFrom?
    ensures BindImports(s, n).imports.Keys == s.imports.Keys + BoundNames(n)
  {
    if n.moduleName.Some? && n.moduleName.value != "" {
      BindAllSpec(s.imports, n.names, n.moduleName.value);
      forall k ensures BoundBy(n.names, k) <==> k in BoundNames(n) {
        if BoundBy(n.names, k) {
          var i :| 0 <= i < |n.names| && Binds(n.names[i], k);
        }
      }
    }
  }

  lemma {:induction false} InnerStep(env: Env, s: State, c: Node)
    requires c.ClassDef?
    ensures Step(env, s, VisitInner(env, s, c), InnerDecls(c))
    decreases Level(env), Size(c), 0
  {
    var s1 := VisitNodes(env, s, c.bases);
    var s2 := VisitKeywords(env, s1, c.classKeywords);
    var s3 := VisitNodes(env, s2, c.body);
    VisitNodesStep(env, s, c.bases);
    VisitKeywordsStep(env, s1, c.classKeywords);
    VisitNodesStep(env, s2, c.body);
    VisitNodesStep(env, s3, c.decorators);
    StepTrans(env, s, s1, s2, DeclsOfSeq(c.bases), DeclsOfKeywords(c.classKeywords));
    StepTrans(env, s, s2, s3, Plus(DeclsOfSeq(c.bases), DeclsOfKeywords(c.classKeywords)), DeclsOfSeq(c.body));
    StepTrans(env, s, s3, VisitNodes(env, s3, c.decorators),
              Plus(Plus(DeclsOfSeq(c.bases), DeclsOfKeywords(c.classKeywords)), DeclsOfSeq(c.body)),
              DeclsOfSeq(c.decorators));
  }

  lemma {:induction false} VisitNodesStep(env: Env, s: State, ns: seq<Node>)
    ensures Step(env, s, VisitNodes(env, s, ns), DeclsOfSeq(ns))
    decreases Level(env), SizeSeq(ns), 3
  {
    if ns != [] {
      SizeSeqElement(ns, |ns| - 1);
      var init := ns[..|ns| - 1];
      var s1 := VisitNodes(env, s, init);
      VisitNodesStep(env, s, init);
      VisitNodeStep(env, s1, ns[|ns| - 1]);
      StepTrans(env, s, s1, VisitNode(env, s1, ns[|ns| - 1]), DeclsOfSeq(init), DeclsOf(ns[|ns| - 1]));
    }
  }

  lemma {:induction false} VisitKeywordsStep(env: Env, s: State, ks: seq<Keyword>)
    ensures Step(env, s, VisitKeywords(env, s, ks), DeclsOfKeywords(ks))
    decreases Level(env), SizeKeywords(ks), 3
  {
    if ks != [] {
      assert SizeKeywords(ks) == SizeKeywords(ks[..|ks| - 1]) + 1 + Size(ks[|ks| - 1].value);
      var init := ks[..|ks| - 1];
      var s1 := VisitKeywords(env, s, init);
      VisitKeywordsStep(env, s, init);
      VisitNodeStep(env, s1, ks[|ks| - 1].value);
      StepTrans(env, s, s1, VisitNode(env, s1, ks[|ks| - 1].value),
                DeclsOfKeywords(init), DeclsOf(ks[|ks| - 1].value));
    }
  }

  lemma {:induction false} CallStepStep(env: Env, s: State, call: Node)
    requires call.Call?
    ensures Step(env, s, CallStep(env, s, call), NoDecls)
    decreases Level(env), Size(call), 0
  {
    match CalledName(call.func)
    case None =>
    case Some(cn) =>
      if cn != "" {
        var s1 := if env.currentFile.Some? then LoadImported(env, s, cn) else s;
        if env.currentFile.Some? {
          LoadImportedStep(env, s, cn);
        } else {
          StepRefl(env, s);
        }
        if cn in s1.defs {
          var d := DirectiveAt(env.lines, call.lineno);
          var fs := InstantiationFindings(cn, s1.defs[cn], call.keywords, d, call.lineno, call.colOffset);
          FindingsShape(cn, s1.defs[cn], call.keywords, d, call.lineno, call.colOffset);
          AppendFieldFindings(env, s1, fs);
          StepTrans(env, s, s1, s1.(errors := s1.errors + fs), NoDecls, NoDecls);
          assert Plus(NoDecls, NoDecls) == NoDecls;
        }
      }
  }

  lemma StepRefl(env: Env, s: State)
    ensures Step(env, s, s, NoDecls)
  {
  }

  /** Appending field findings is a step that declares nothing. */
  lemma AppendFieldFindings(env: Env, s: State, fs: seq<Finding>)
    requires forall i :: 0 <= i < |fs| ==> fs[i].FieldFinding?
    ensures Step(env, s, s.(errors := s.errors + fs), NoDecls)
  {
    var t := s.(errors := s.errors + fs);
    assert AllFieldFindings(s.errors) ==> AllFieldFindings(t.errors) by {
      forall i | 0 <= i < |t.errors| ensures AllFieldFindings(s.errors) ==> t.errors[i].FieldFinding? {
        if i >= |s.errors| {
          assert t.errors[i] == fs[i - |s.errors|];
        }
      }
    }
  }

  lemma {:induction false} LoadImportedStep(env: Env, s: State, name: string)
    requires env.currentFile.Some?
    ensures Step(env, s, LoadImported(env, s, name), NoDecls)
    decreases Level(env), 0, 0
  {
    if name !in s.defs && name in s.imports {
      var base := ModuleBase(env.fs, s.imports[name], env.currentFile.value);
      PickFileChoice(env.fs, base);
      match Resolve(env.fs, s.imports[name], env.currentFile.value)
      case None =>
      case Some(p) =>
        if p !in s.processed {
          var processed := s.processed + {p};
          match ReadSource(env.fs, p)
          case Some(Parsed(tree, _)) =>
            VisitNodesStep(NestedEnv(env.fs), EmptyState(processed), tree);
          case _ =>
        }
    }
  }

  // ---------------------------------------------------------------------------
  // Properties

  /** The walk is a left fold: walking `a + b` walks `a`, then `b` from
      where `a` left off. So a call sees exactly the imports and definitions
      of the statements before it, and its findings come after theirs. */
  lemma {:induction false} VisitNodesAppend(env: Env, s: State, a: seq<Node>, b: seq<Node>)
    ensures VisitNodes(env, s, a + b) == VisitNodes(env, VisitNodes(env, s, a), b)
    decreases |b|
  {
    if b == [] {
      assert a + b == a;
    } else {
      var b' := b[..|b| - 1];
      assert (a + b)[..|a + b| - 1] == a + b';
      VisitNodesAppend(env, s, a, b');
    }
  }

  /** The walk a load starts, which has no current file, loads nothing: the
      shared processed set comes back as it went in. So imports are not
      followed transitively. */
  lemma NestedWalkLoadsNothing(fs: FileSystem, s: State, tree: seq<Node>)
    ensures VisitNodes(NestedEnv(fs), s, tree).processed == s.processed
  {
    VisitNodesStep(NestedEnv(fs), s, tree);
  }

  /** Along any walk, findings are only appended, processed paths are never
      forgotten and each newly processed path exists. The bound names grow by
      exactly the names the walked `from M import ...` statements bind, so a
      name becomes imported in no other way. Every model class the walked
      statements declare, nested ones included, ends up defined, and a
      definition present before keeps its fields unless a model class of that
      name is declared; loads never overwrite. */
  lemma WalkKeeps(env: Env, s: State, ns: seq<Node>)
    ensures var t := VisitNodes(env, s, ns);
      && s.errors <= t.errors
      && s.processed <= t.processed
      && (forall p :: p in t.processed - s.processed ==> Exists(env.fs, p))
      && t.imports.Keys == s.imports.Keys + DeclsOfSeq(ns).bound
      && s.defs.Keys + ClassNamesSeq(ns) <= t.defs.Keys
      && (forall k :: k in s.defs && k !in ClassNamesSeq(ns) ==> t.defs[k] == s.defs[k])
  {
    VisitNodesStep(env, s, ns);
  }

  /** The walk of an imported file, by a checker with no current file and no
      definitions: it defines exactly the model classes the file declares,
      nested ones included, each with the fields of one class statement of
      that name; it binds exactly the names the file's imports bind; and it
      processes nothing. */
  lemma NestedWalkDeclares(fs: FileSystem, processed: set<Path>, tree: seq<Node>)
    ensures var t := VisitNodes(NestedEnv(fs), EmptyState(processed), tree);
      && t.defs.Keys == ClassNamesSeq(tree)
      && (forall k :: k in t.defs ==> (k, t.defs[k]) in DeclsOfSeq(tree).models)
      && t.imports.Keys == DeclsOfSeq(tree).bound
      && t.processed == processed
  {
    VisitNodesStep(NestedEnv(fs), EmptyState(processed), tree);
  }

  /** `_load_imported_model`: nothing changes when the name is already
      defined, was never imported, does not resolve, or resolves to a path
      already processed. Otherwise the path exists and becomes processed
      (so no path is loaded twice), bindings and findings are untouched,
      existing definitions stay as they are, an unreadable or unparsable file
      adds nothing, and a parsed file adds exactly the model classes it
      declares that are not yet defined, nested ones included, each with the
      fields of a class statement of that name in that file. */
  lemma LoadImportedCases(env: Env, s: State, name: string)
    requires env.currentFile.Some?
    ensures var r := LoadImported(env, s, name);
      && (name in s.defs || name !in s.imports ==> r == s)
      && (name !in s.defs && name in s.imports ==>
            var p := Resolve(env.fs, s.imports[name], env.currentFile.value);
            && (p.None? || p.value in s.processed ==> r == s)
            && (p.Some? && p.value !in s.processed ==>
                  && Exists(env.fs, p.value)
                  && r.processed == s.processed + {p.value}
                  && r.imports == s.imports && r.errors == s.errors
                  && (forall k :: k in s.defs ==> k in r.defs && r.defs[k] == s.defs[k])
                  && (match ReadSource(env.fs, p.value)
                      case Some(Parsed(tree, _)) =>
                        && r.defs.Keys == s.defs.Keys + ClassNamesSeq(tree)
                        && forall k :: k in r.defs && k !in s.defs ==> (k, r.defs[k]) in DeclsOfSeq(tree).models
                      case _ => r.defs == s.defs)))
  {
    if name !in s.defs && name in s.imports {
      var base := ModuleBase(env.fs, s.imports[name], env.currentFile.value);
      PickFileChoice(env.fs, base);
      var p := Resolve(env.fs, s.imports[name], env.currentFile.value);
      if p.Some? && p.value !in s.processed {
        match ReadSource(env.fs, p.value)
        case Some(Parsed(tree, _)) =>
          NestedWalkDeclares(env.fs, s.processed + {p.value}, tree);
        case _ =>
      }
    }
  }

  /** A load registers the imported file's classes under their own names. So
      when the called name is an `as` alias, or otherwise names no model class
      of the file it resolves to, it is still undefined after the load, and
      the call is not checked. */
  lemma AliasStaysUndefined(env: Env, s: State, name: string)
    requires env.currentFile.Some? && name !in s.defs && name in s.imports
    requires var p := Resolve(env.fs, s.imports[name], env.currentFile.value);
      p.None? || ReadSource(env.fs, p.value).None? || !ReadSource(env.fs, p.value).value.Parsed?
      || name !in ClassNamesSeq(ReadSource(env.fs, p.value).value.tree)
    ensures name !in LoadImported(env, s, name).defs
  {
    LoadImportedCases(env, s, name);
  }

  /** A load merges every model class of the imported file that is not yet
      defined, not only the one called: after `from m import A`, a call of
      `A` also defines any other model class `B` of `m`, so a later `B()` is
      checked although `B` was never imported. */
  lemma LoadMergesWholeFile(env: Env, s: State, name: string, other: string, tree: seq<Node>, lines: seq<string>)
    requires env.currentFile.Some? && name !in s.defs && name in s.imports
    requires var p := Resolve(env.fs, s.imports[name], env.currentFile.value);
      p.Some? && p.value !in s.processed && ReadSource(env.fs, p.value) == Some(Parsed(tree, lines))
    requires other in ClassNamesSeq(tree)
    ensures other in LoadImported(env, s, name).defs
  {
    LoadImportedCases(env, s, name);
  }

  /** Some alias of `names` binds `k`. */
  predicate BoundBy(names: seq<Alias>, k: string) {
    exists i :: 0 <= i < |names| && Binds(names[i], k)
  }

  /** The bindings of `from M import ...`: a local name is bound exactly when
      it was bound before or some alias other than `*` binds it, every alias
      binds to `M`, and names no alias binds keep their module. */
  lemma {:induction false} BindAllSpec(imports: map<string, string>, names: seq<Alias>, moduleName: string)
    ensures var r := BindAll(imports, names, moduleName);
      && (forall k :: k in r <==> k in imports || BoundBy(names, k))
      && (forall k, i :: 0 <= i < |names| && Binds(names[i], k) ==> k in r && r[k] == moduleName)
      && (forall k :: k in imports && (forall i :: 0 <= i < |names| ==> !Binds(names[i], k)) ==> r[k] == imports[k])
    decreases |names|
  {
    if names != [] {
      var init := names[..|names| - 1];
      BindAllSpec(imports, init, moduleName);
      forall k ensures BoundBy(names, k) <==> BoundBy(init, k) || Binds(names[|names| - 1], k) {
        BoundByLast(names, k);
      }
    }
  }

  lemma BoundByLast(names: seq<Alias>, k: string)
    requires names != []
    ensures BoundBy(names, k) <==> BoundBy(names[..|names| - 1], k) || Binds(names[|names| - 1], k)
  {
    var init := names[..|names| - 1];
    if BoundBy(names, k) {
      var i :| 0 <= i < |names| && Binds(names[i], k);
      if i < |init| {
        assert Binds(init[i], k);
      }
    }
    if BoundBy(init, k) {
      var i :| 0 <= i < |init| && Binds(init[i], k);
      assert Binds(names[i], k);
    }
  }

  /** `visit_ImportFrom` on a statement without a module binds nothing; with
      one it changes only the bindings, as `BindAllSpec` describes. The level
      of a relative import is not kept, so `from .m import X` binds `X` to `m`. */
  lemma ImportFromVisit(env: Env, s: State, n: Node)
    requires n.ImportFrom?
    ensures var r := VisitNode(env, s, n);
      && (n.moduleName.None? || n.moduleName.value == "" ==> r == s)
      && (n.moduleName.Some? && n.moduleName.value != "" ==>
            && r.defs == s.defs && r.processed == s.processed && r.errors == s.errors
            && r.imports.Keys == s.imports.Keys + BoundNames(n)
            && forall k, i :: 0 <= i < |n.names| && Binds(n.names[i], k) ==> k in r.imports && r.imports[k] == n.moduleName.value)
  {
    ImportFromKeys(s, n);
    if n.moduleName.Some? && n.moduleName.value != "" {
      BindAllSpec(s.imports, n.names, n.moduleName.value);
    }
  }

  /** A model class statement leaves its own fields under its name, unless a
      model class of the same name is declared inside it. */
  lemma ModelClassRegistered(env: Env, s: State, c: Node)
    requires c.ClassDef? && IsModelClass(c.bases) && c.name !in InnerClassNames(c)
    ensures c.name in VisitNode(env, s, c).defs && VisitNode(env, s, c).defs[c.name] == FieldsOf(c.body)
  {
    var s0 := RegisterClass(s, c);
    InnerStep(env, s0, c);
    assert VisitNode(env, s, c) == VisitInner(env, s0, c);
  }

  /** What one statement of a sequence declares is declared by the sequence. */
  lemma {:induction false} DeclsOfSeqElement(ns: seq<Node>, i: int)
    requires 0 <= i < |ns|
    ensures DeclsOf(ns[i]).models <= DeclsOfSeq(ns).models
    ensures DeclsOf(ns[i]).bound <= DeclsOfSeq(ns).bound
    decreases |ns|
  {
    if i < |ns| - 1 {
      DeclsOfSeqElement(ns[..|ns| - 1], i);
    }
  }

  /** A model class statement in a class body is registered too, as
      `generic_visit` walks the body: after the outer statement its name is
      defined. */
  lemma NestedModelRegistered(env: Env, s: State, c: Node, i: int)
    requires c.ClassDef? && 0 <= i < |c.body| && c.body[i].ClassDef? && IsModelClass(c.body[i].bases)
    ensures c.body[i].name in VisitNode(env, s, c).defs
  {
    var inner := c.body[i];
    VisitNodeStep(env, s, c);
    assert (inner.name, FieldsOf(inner.body)) in OwnDecls(inner).models;
    assert (inner.name, FieldsOf(inner.body)) in DeclsOf(inner).models;
    DeclsOfSeqElement(c.body, i);
    assert (inner.name, FieldsOf(inner.body)) in DeclsOf(c).models;
    NameOfModel(DeclsOf(c), inner.name, FieldsOf(inner.body));
  }

  /** A class statement whose bases name no model gets no entry of its own:
      a definition of its name is kept as it was, and in the walk of an
      imported file, which loads nothing, its name is defined afterwards
      exactly when it was before (unless a model class of that name is
      declared inside it). */
  lemma NonModelClassNotRegistered(env: Env, s: State, c: Node)
    requires c.ClassDef? && !IsModelClass(c.bases) && c.name !in InnerClassNames(c)
    ensures c.name in s.defs ==> c.name in VisitNode(env, s, c).defs && VisitNode(env, s, c).defs[c.name] == s.defs[c.name]
    ensures Level(env) == 0 ==> (c.name in VisitNode(env, s, c).defs <==> c.name in s.defs)
  {
    VisitNodeStep(env, s, c);
    NamesOwn(c);
    NamesPlus(OwnDecls(c), InnerDecls(c));
  }

  /** Of two same-named model classes in one file, the later one's fields are
      the ones kept, whatever came before it. */
  lemma LaterClassWins(env: Env, s: State, before: seq<Node>, c: Node)
    requires c.ClassDef? && IsModelClass(c.bases) && c.name !in InnerClassNames(c)
    ensures c.name in VisitNodes(env, s, before + [c]).defs
    ensures VisitNodes(env, s, before + [c]).defs[c.name] == FieldsOf(c.body)
  {
    VisitNodesAppend(env, s, before, [c]);
    assert [c][..0] == [];
    ModelClassRegistered(env, VisitNodes(env, s, before), c);
  }

  /** `visit_Call` on a call of a model already defined here: no file is
      loaded, the call's findings are appended to the findings so far, and
      the call's arguments, walked afterwards, only add findings after them.
      A call whose name is neither defined nor imported changes nothing
      before its children are walked. */
  lemma KnownModelCall(env: Env, s: State, call: Node, cn: string)
    requires call.Call? && CalledName(call.func) == Some(cn) && cn != ""
    ensures cn in s.defs ==>
      var found := InstantiationFindings(cn, s.defs[cn], call.keywords, DirectiveAt(env.lines, call.lineno),
                                         call.lineno, call.colOffset);
      && CallStep(env, s, call) == s.(errors := s.errors + found)
      && s.errors + found <= VisitNode(env, s, call).errors
    ensures cn !in s.defs && cn !in s.imports ==> CallStep(env, s, call) == s
  {
    var s1 := CallStep(env, s, call);
    CallChildrenStep(env, s1, call);
    assert VisitNode(env, s, call) == VisitCallChildren(env, s1, call);
  }

  /** `check_file`: an unreadable file raises; a file that does not parse
      gives exactly one finding, a syntax finding at the error's position (0
      when unknown) whose message begins `Syntax Error: `; a parsed file gives
      only field findings, every message beginning `Error:`, in walk order. */
  lemma CheckFileOutcomes(fs: FileSystem, path: Path)
    ensures ReadSource(fs, path).None? <==> CheckFileSpec(fs, path).ReadFailed?
    ensures match ReadSource(fs, path)
      case Some(SyntaxErr(lineno, offset, msg)) =>
        && CheckFileSpec(fs, path) == Reported([SyntaxFinding(OrZero(lineno), OrZero(offset), msg)])
        && "Syntax Error: " <= Message(CheckFileSpec(fs, path).findings[0])
        && (lineno.None? ==> CheckFileSpec(fs, path).findings[0].line == 0)
      case Some(Parsed(_, _)) =>
        forall i :: 0 <= i < |CheckFileSpec(fs, path).findings| ==>
          CheckFileSpec(fs, path).findings[i].FieldFinding?
          && "Error:" <= Message(CheckFileSpec(fs, path).findings[i])
      case None => true
  {
    match ReadSource(fs, path)
    case Some(Parsed(tree, lines)) =>
      VisitNodesStep(Env(Some(path), lines, fs), EmptyState({path}), tree);
    case _ =>
  }

  // ---------------------------------------------------------------------------
  // Scenarios: one file, walked once from the top

  /** `age: int`, a required field. */
  const AgeField: Node := AnnAssign(Name("age"), Name("int"), None)

  /** `class User(BaseModel): age: int`. */
  const UserClass: Node := ClassDef("User", [Name("BaseModel")], [], [AgeField], [])

  /** `class Admin(User): pass`, a subclass of a model. */
  const AdminClass: Node := ClassDef("Admin", [Name("User")], [], [], [])

  /** `name()` with no arguments, at line `lineno`. */
  function BareCall(name: string, lineno: int): Node {
    Call(Name(name), [], [], lineno, 0)
  }

  /** The walk of `class User(BaseModel): age: int` defines `User` with its
      one required field and changes nothing else. */
  lemma UserClassStep(env: Env, s: State)
    ensures VisitNode(env, s, UserClass) == s.(defs := s.defs["User" := [FieldInfo("age", false, false)]])
  {
    assert IsModelBase(Name("BaseModel"));
    assert FieldsOf([AgeField]) == [FieldInfo("age", false, false)] by {
      assert [AgeField][..0] == [];
    }
    var s1 := RegisterClass(s, UserClass);
    assert VisitNodes(env, s1, [Name("BaseModel")]) == s1 by {
      assert [Name("BaseModel")][..0] == [];
    }
    assert VisitNodes(env, s1, [AgeField]) == s1 by {
      assert [AgeField][..0] == [];
      assert VisitNode(env, s1, AgeField) == VisitNode(env, VisitNode(env, s1, Name("age")), Name("int"));
    }
  }

  /** The walk of `class Admin(User): pass` changes nothing. */
  lemma AdminClassStep(env: Env, s: State)
    ensures VisitNode(env, s, AdminClass) == s
  {
    assert forall b :: b in [Name("User")] ==> b == Name("User");
    assert !IsModelBase(Name("User"));
    assert VisitNodes(env, s, [Name("User")]) == s by {
      assert [Name("User")][..0] == [];
    }
  }

  /** The walk of `name()`, where `name` is neither defined nor imported,
      changes nothing; where it is defined, it appends the call's findings. */
  lemma BareCallStep(env: Env, s: State, name: string, lineno: int)
    requires name != ""
    ensures name !in s.defs && name !in s.imports ==> VisitNode(env, s, BareCall(name, lineno)) == s
    ensures name in s.defs ==>
      VisitNode(env, s, BareCall(name, lineno)) ==
        s.(errors := s.errors + InstantiationFindings(name, s.defs[name], [], DirectiveAt(env.lines, lineno), lineno, 0))
  {
    var c := BareCall(name, lineno);
    if env.currentFile.Some? && (name in s.defs || name !in s.imports) {
      assert LoadImported(env, s, name) == s;
    }
    var s1 := CallStep(env, s, c);
    assert VisitNode(env, s, c) == VisitKeywords(env, VisitNodes(env, VisitNode(env, s1, c.func), []), []);
  }

  /** Only a base written as `BaseModel` or `Base` makes a model: after
      `class User(BaseModel)` and `class Admin(User)`, `Admin()` finds no
      definition and is not checked, although `User`'s required `age` is
      not passed. */
  lemma SubclassCallUnchecked(fs: FileSystem, path: Path, lines: seq<string>)
    ensures var r := VisitNodes(Env(Some(path), lines, fs), EmptyState({path}),
                                [UserClass, AdminClass, BareCall("Admin", 3)]);
      && "User" in r.defs && "Admin" !in r.defs && r.errors == []
  {
    var env := Env(Some(path), lines, fs);
    var s0 := EmptyState({path});
    var ns := [UserClass, AdminClass, BareCall("Admin", 3)];
    assert ns[..2] == [UserClass, AdminClass] && ns[..2][..1] == [UserClass] && [UserClass][..0] == [];
    UserClassStep(env, s0);
    var s1 := VisitNode(env, s0, UserClass);
    assert VisitNodes(env, s0, [UserClass]) == s1;
    AdminClassStep(env, s1);
    assert VisitNodes(env, s0, ns[..2]) == s1;
    BareCallStep(env, s1, "Admin", 3);
    assert VisitNodes(env, s0, ns) == VisitNode(env, s1, BareCall("Admin", 3));
  }

  /** The file is walked once, so a call is checked only against the models
      declared before it: `User()` above `class User(BaseModel): age: int`
      gives no finding, and the same call below it reports `age` missing. */
  lemma CallBeforeClassUnchecked(fs: FileSystem, path: Path, lines: seq<string>)
    ensures VisitNodes(Env(Some(path), lines, fs), EmptyState({path}), [BareCall("User", 1), UserClass]).errors == []
    ensures VisitNodes(Env(Some(path), [], fs), EmptyState({path}), [UserClass, BareCall("User", 2)]).errors != []
  {
    var s0 := EmptyState({path});
    var env := Env(Some(path), lines, fs);
    assert [BareCall("User", 1), UserClass][..1] == [BareCall("User", 1)] && [BareCall("User", 1)][..0] == [];
    BareCallStep(env, s0, "User", 1);
    UserClassStep(env, s0);
    var top := Env(Some(path), [], fs);
    assert [UserClass, BareCall("User", 2)][..1] == [UserClass] && [UserClass][..0] == [];
    UserClassStep(top, s0);
    var s1 := VisitNode(top, s0, UserClass);
    assert VisitNodes(top, s0, [UserClass]) == s1;
    BareCallStep(top, s1, "User", 2);
    var fields := [FieldInfo("age", false, false)];
    assert fields[0] in fields && IsRequired(fields[0]);
    assert "age" in RequiredNames(fields);
    assert ProvidedNames([]) == {};
    assert DirectiveAt([], 2) == NoDirective && !HasSpread([]);
    assert "age" in (RequiredNames(fields) - ProvidedNames([])) - NoDirective.ignored;
    assert MissingFinding("User", fields, ProvidedNames([]), NoDirective.ignored, 2, 0) != [];
    assert InstantiationFindings("User", fields, [], NoDirective, 2, 0) != [];
    assert VisitNodes(top, s0, [UserClass, BareCall("User", 2)]) == VisitNode(top, s1, BareCall("User", 2));
  }
}
