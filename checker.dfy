/** `BaseModelFieldChecker` as an object whose methods update its
    dictionaries, list and set in place, and `check_file`. Each method is
    proved to leave the object in the state the corresponding function of
    `Traversal` computes. */
module Checker {
  import opened Text
  import opened Ast
  import opened Fields
  import opened Directive
  import opened Validator
  import opened Paths
  import opened Traversal

  /** `processed_files`: an object, so that a checker and the checker a load
      creates can hold the same set. */
  class PathSet {
    var paths: set<Path>

    constructor (init: set<Path>)
      ensures paths == init
    {
      paths := init;
    }
  }

  class FieldChecker {
    var modelDefinitions: map<string, seq<FieldInfo>>
    var importedModels: map<string, string>
    var errors: seq<Finding>
    var processedFiles: PathSet
    var sourceLines: seq<string>
    /** `None` until `check_file` sets it; a load's checker never has one. */
    var currentFile: Option<Path>
    const fs: FileSystem

    /** The state the walk functions describe. */
    function Abs(): State
      reads this, processedFiles
    {
      State(modelDefinitions, importedModels, processedFiles.paths, errors)
    }

    function EnvOf(): Env
      reads this
    {
      Env(currentFile, sourceLines, fs)
    }

    constructor (fs: FileSystem, sourceLines: seq<string>)
      ensures this.fs == fs && this.sourceLines == sourceLines && currentFile == None
      ensures fresh(processedFiles)
      ensures Abs() == EmptyState({})
    {
      modelDefinitions := map[];
      importedModels := map[];
      errors := [];
      processedFiles := new PathSet({});
      this.sourceLines := sourceLines;
      currentFile := None;
      this.fs := fs;
    }

    /** `visit`: dispatch on the node's type; nodes without a visitor of
        their own get `generic_visit`. */
    method Visit(n: Node)
      modifies this, processedFiles
      ensures Abs() == VisitNode(old(EnvOf()), old(Abs()), n)
      ensures currentFile == old(currentFile) && sourceLines == old(sourceLines)
      ensures processedFiles == old(processedFiles)
      decreases Level(EnvOf()), Size(n), 1
    {
      match n
      case Name(_) =>
      case Attribute(v, _) =>
        Visit(v);
      case Subscript(v, sl) =>
        Visit(v);
        Visit(sl);
      case Call(_, _, _, _, _) =>
        VisitCall(n);
      case ClassDef(_, _, _, _, _) =>
        VisitClassDef(n);
      case AnnAssign(t, a, v) =>
        Visit(t);
        Visit(a);
        if v.Some? {
          Visit(v.value);
        }
      case ImportFrom(_, _, _) =>
        VisitImportFrom(n);
      case Other(cs) =>
        VisitAll(cs);
    }

    /** `generic_visit` over a list of child nodes. */
    method VisitAll(ns: seq<Node>)
      modifies this, processedFiles
      ensures Abs() == VisitNodes(old(EnvOf()), old(Abs()), ns)
      ensures currentFile == old(currentFile) && sourceLines == old(sourceLines)
      ensures processedFiles == old(processedFiles)
      decreases Level(EnvOf()), SizeSeq(ns), 2
    {
      ghost var env := EnvOf();
      ghost var s0 := Abs();
      var i := 0;
      while i < |ns|
        invariant 0 <= i <= |ns|
        invariant EnvOf() == env && processedFiles == old(processedFiles)
        invariant Abs() == VisitNodes(env, s0, ns[..i])
      {
        SizeSeqElement(ns, i);
        assert ns[..i + 1][..i] == ns[..i];
        Visit(ns[i]);
        i := i + 1;
      }
      assert ns[..|ns|] == ns;
    }

    /** `generic_visit` over the values of keyword arguments. */
    method VisitKeywordValues(ks: seq<Keyword>)
      modifies this, processedFiles
      ensures Abs() == VisitKeywords(old(EnvOf()), old(Abs()), ks)
      ensures currentFile == old(currentFile) && sourceLines == old(sourceLines)
      ensures processedFiles == old(processedFiles)
      decreases Level(EnvOf()), SizeKeywords(ks), 2
    {
      ghost var env := EnvOf();
      ghost var s0 := Abs();
      var i := 0;
      while i < |ks|
        invariant 0 <= i <= |ks|
        invariant EnvOf() == env && processedFiles == old(processedFiles)
        invariant Abs() == VisitKeywords(env, s0, ks[..i])
      {
        SizeKeywordsElement(ks, i);
        assert ks[..i + 1][..i] == ks[..i];
        Visit(ks[i].value);
        i := i + 1;
      }
      assert ks[..|ks|] == ks;
    }

    /** `visit_ImportFrom`. */
    method VisitImportFrom(n: Node)
      requires n.ImportFrom?
      modifies this`importedModels
      ensures Abs() == VisitNode(old(EnvOf()), old(Abs()), n)
    {
      if n.moduleName.None? || n.moduleName.value == "" {
        return;
      }
      var modulePath := n.moduleName.value;
      for i := 0 to |n.names|
        invariant importedModels == BindAll(old(importedModels), n.names[..i], modulePath)
      {
        assert n.names[..i + 1][..i] == n.names[..i];
        var alias := n.names[i];
        if alias.name != "*" {
          var modelName := if alias.asname.Some? && alias.asname.value != "" then alias.asname.value else alias.name;
          importedModels := importedModels[modelName := modulePath];
        }
      }
      assert n.names[..|n.names|] == n.names;
    }

    /** `visit_ClassDef`: a model class is entered under its name, then its
        children are visited. */
    method VisitClassDef(n: Node)
      requires n.ClassDef?
      modifies this, processedFiles
      ensures Abs() == VisitNode(old(EnvOf()), old(Abs()), n)
      ensures currentFile == old(currentFile) && sourceLines == old(sourceLines)
      ensures processedFiles == old(processedFiles)
      decreases Level(EnvOf()), Size(n), 0
    {
      if IsModelClass(n.bases) {
        var fields := ExtractFields(n);
        modelDefinitions := modelDefinitions[n.name := fields];
      }
      VisitAll(n.bases);
      VisitKeywordValues(n.classKeywords);
      VisitAll(n.body);
      VisitAll(n.decorators);
    }

    /** `_extract_fields`: the fields of the class body's annotated
        assignments to plain names, in body order. */
    method ExtractFields(classNode: Node) returns (fields: seq<FieldInfo>)
      requires classNode.ClassDef?
      ensures fields == FieldsOf(classNode.body)
    {
      var body := classNode.body;
      fields := [];
      for i := 0 to |body|
        invariant fields == FieldsOf(body[..i])
      {
        assert body[..i + 1][..i] == body[..i];
        var item := body[i];
        if item.AnnAssign? && item.target.Name? {
          var hasDefault := item.initializer.Some?;
          var isOptional := IsOptionalType(item.annotation);
          fields := fields + [FieldInfo(item.target.id, hasDefault, isOptional)];
        }
      }
      assert body[..|body|] == body;
    }

    /** `_resolve_module_path(module_name, current_file)`. */
    method ResolveModulePath(moduleName: string, currentFile: Path) returns (r: Option<Path>)
      ensures r == Resolve(fs, moduleName, currentFile)
    {
      var filePath: Path;
      var currentDir := Dirname(currentFile);
      if moduleName != [] && moduleName[0] == '.' {
        var level := LeadingDots(moduleName);
        var moduleParts := Split(moduleName[level..], '.');
        var baseDir := currentDir;
        for j := 0 to level - 1
          invariant baseDir == Ancestor(currentDir, j)
        {
          baseDir := Dirname(baseDir);
        }
        filePath := baseDir + moduleParts;
      } else {
        assert LeadingDots(moduleName) == 0 && moduleName[0..] == moduleName;
        var moduleParts := Split(moduleName, '.');
        var searchDir := currentDir;
        var projectRoot: Option<Path> := None;
        while searchDir != Dirname(searchDir)
          invariant ProjectRoot(fs, searchDir) == ProjectRoot(fs, currentDir)
          invariant projectRoot == None
          decreases |searchDir|
        {
          if Exists(fs, searchDir + [PyprojectFile]) || Exists(fs, searchDir + [SetupFile]) {
            projectRoot := Some(searchDir);
            break;
          }
          searchDir := Dirname(searchDir);
        }
        if projectRoot.None? {
          projectRoot := Some(currentDir);
        }
        filePath := projectRoot.value + moduleParts;
      }
      assert filePath == ModuleBase(fs, moduleName, currentFile);
      if Exists(fs, WithSuffix(filePath, PySuffix)) {
        return Some(WithSuffix(filePath, PySuffix));
      }
      var initPath := filePath + [InitFile];
      if Exists(fs, initPath) {
        return Some(initPath);
      }
      return None;
    }

    /** `_load_imported_model(model_name, current_file)`: reads the module the
        name was imported from with a fresh checker that shares the processed
        set, and merges in its definitions. */
    method LoadImportedModel(modelName: string, currentFile: Path)
      requires this.currentFile == Some(currentFile)
      modifies this, processedFiles
      ensures Abs() == LoadImported(old(EnvOf()), old(Abs()), modelName)
      ensures this.currentFile == old(this.currentFile) && sourceLines == old(sourceLines)
      ensures processedFiles == old(processedFiles)
      decreases Level(EnvOf()), 0, 1
    {
      if modelName in modelDefinitions {
        return;
      }
      if modelName !in importedModels {
        return;
      }
      var modulePath := importedModels[modelName];
      var filePath := ResolveModulePath(modulePath, currentFile);
      if filePath.None? || filePath.value in processedFiles.paths {
        return;
      }
      processedFiles.paths := processedFiles.paths + {filePath.value};
      var source := ReadSource(fs, filePath.value);
      if source.Some? && source.value.Parsed? {
        var nested := WalkImported(source.value.tree);
        MergeDefinitions(nested, modelName);
      }
    }

    /** The fresh checker `_load_imported_model` creates: no current file, no
        lines, and the processed set shared with this one. Its definitions
        are what the walk of the imported tree gives. */
    method WalkImported(tree: seq<Node>) returns (nested: map<string, seq<FieldInfo>>)
      requires currentFile.Some?
      modifies processedFiles
      ensures var t := VisitNodes(NestedEnv(fs), EmptyState(old(processedFiles.paths)), tree);
        nested == t.defs && processedFiles.paths == t.processed
      decreases Level(EnvOf()), 0, 0
    {
      var temp := new FieldChecker(fs, []);
      temp.processedFiles := processedFiles;
      temp.VisitAll(tree);
      nested := temp.modelDefinitions;
    }

    /** The merge loop of `_load_imported_model`. */
    method MergeDefinitions(nested: map<string, seq<FieldInfo>>, modelName: string)
      modifies this`modelDefinitions
      ensures modelDefinitions == MergeDefs(old(modelDefinitions), nested, modelName)
    {
      ghost var defs0 := modelDefinitions;
      var names := nested.Keys;
      while names != {}
        invariant names <= nested.Keys
        invariant forall n :: n in modelDefinitions <==> n in defs0 || (n in nested && n !in names)
        invariant forall n :: n in modelDefinitions ==>
          modelDefinitions[n] == (if n in nested && n !in names && (n == modelName || n !in defs0) then nested[n] else defs0[n])
        decreases names
      {
        var name :| name in names;
        if name == modelName || name !in modelDefinitions {
          modelDefinitions := modelDefinitions[name := nested[name]];
        }
        names := names - {name};
      }
      assert modelDefinitions == MergeDefs(defs0, nested, modelName);
    }

    /** `visit_Call`: a call of a known model is checked, then the children
        are visited. */
    method VisitCall(n: Node)
      requires n.Call?
      modifies this, processedFiles
      ensures Abs() == VisitNode(old(EnvOf()), old(Abs()), n)
      ensures currentFile == old(currentFile) && sourceLines == old(sourceLines)
      ensures processedFiles == old(processedFiles)
      decreases Level(EnvOf()), Size(n), 0
    {
      CheckCall(n);
      Visit(n.func);
      VisitAll(n.args);
      VisitKeywordValues(n.keywords);
    }

    /** The part of `visit_Call` before `generic_visit`: the class name comes
        from `Name` or `Attribute`; a checker with a current file loads the
        name's import first; a call of a known model is checked. */
    method CheckCall(n: Node)
      requires n.Call?
      modifies this, processedFiles
      ensures Abs() == CallStep(old(EnvOf()), old(Abs()), n)
      ensures currentFile == old(currentFile) && sourceLines == old(sourceLines)
      ensures processedFiles == old(processedFiles)
      decreases Level(EnvOf()), 0, 2
    {
      var className: Option<string> := None;
      if n.func.Name? {
        className := Some(n.func.id);
      } else if n.func.Attribute? {
        className := Some(n.func.attr);
      }
      assert className == CalledName(n.func);
      if className.Some? && className.value != "" {
        if currentFile.Some? {
          LoadImportedModel(className.value, currentFile.value);
        }
        if className.value in modelDefinitions {
          CheckInstantiation(n, className.value);
        }
      }
    }

    /** `_check_ignore_comment(lineno)`. */
    method CheckIgnoreComment(lineno: int) returns (d: Directive)
      ensures d == DirectiveAt(sourceLines, lineno)
    {
      if sourceLines == [] || lineno <= 0 || lineno > |sourceLines| {
        return NoDirective;
      }
      var linesToCheck: seq<string> := [];
      if lineno > 0 {
        linesToCheck := linesToCheck + [sourceLines[lineno - 1]];
      }
      if lineno > 1 {
        linesToCheck := linesToCheck + [sourceLines[lineno - 2]];
      }
      assert linesToCheck == CandidateLines(sourceLines, lineno);
      for i := 0 to |linesToCheck|
        invariant FirstDecision(linesToCheck[i..]) == DirectiveAt(sourceLines, lineno)
      {
        var line := linesToCheck[i];
        assert linesToCheck[i..][1..] == linesToCheck[i + 1..];
        if Contains(line, LongFieldMarker) || Contains(line, ShortFieldMarker) {
          FieldMarkerDecides(line);
          var commentPart := After(line, "#");
          if Contains(commentPart, FieldKeyword) {
            var fieldPart := Strip(After(commentPart, FieldKeyword));
            return Directive(false, FieldNames(fieldPart));
          }
        } else if Contains(line, LongIgnoreMarker) || Contains(line, ShortIgnoreMarker) {
          return Directive(true, {});
        }
      }
      return NoDirective;
    }

    /** `_check_instantiation(node, class_name)`: appends the call's findings. */
    method CheckInstantiation(call: Node, className: string)
      requires call.Call? && className in modelDefinitions
      modifies this`errors
      ensures errors == old(errors) + InstantiationFindings(className, modelDefinitions[className], call.keywords,
                                                            DirectiveAt(sourceLines, call.lineno),
                                                            call.lineno, call.colOffset)
    {
      var d := CheckIgnoreComment(call.lineno);
      var found := CallFindings(className, modelDefinitions[className], call.keywords, d, call.lineno, call.colOffset);
      errors := errors + found;
    }
  }

  /** The keyword loop of `_check_instantiation`:
      the keyword names given, and whether a `**mapping` was given. */
  method ScanKeywords(keywords: seq<Keyword>) returns (provided: set<string>, hasKwargs: bool)
    ensures provided == ProvidedNames(keywords)
    ensures hasKwargs == HasSpread(keywords)
  {
    provided := {};
    hasKwargs := false;
    for i := 0 to |keywords|
      invariant provided == ProvidedNames(keywords[..i])
      invariant hasKwargs == HasSpread(keywords[..i])
    {
      KeywordsStep(keywords, i);
      if keywords[i].arg.None? {
        hasKwargs := true;
      } else {
        provided := provided + {keywords[i].arg.value};
      }
    }
    assert keywords[..|keywords|] == keywords;
  }

  /** The body of `_check_instantiation` after the directive is read: the
      findings it appends, in order. */
  method CallFindings(className: string, fields: seq<FieldInfo>, keywords: seq<Keyword>,
                      d: Directive, line: int, col: int) returns (found: seq<Finding>)
    ensures found == InstantiationFindings(className, fields, keywords, d, line, col)
  {
    found := [];
    if d.ignoreAll {
      return;
    }
    var requiredFields := RequiredNames(fields);
    var allFields := AllNames(fields);
    var providedFields, hasKwargs := ScanKeywords(keywords);
    if hasKwargs {
      return;
    }
    FindingsParts(className, fields, keywords, d, line, col);
    var missingRequired := (requiredFields - providedFields) - d.ignored;
    if missingRequired != {} {
      found := found + [FieldFinding(line, col, MissingRequired, className,
                                     SortedDistinct(MissingRequiredList(fields, providedFields, d.ignored)))];
    }
    assert found == MissingFinding(className, fields, providedFields, d.ignored, line, col);
    var missingAll := (allFields - providedFields) - d.ignored;
    if missingAll != {} {
      var optionalMissing := OptionalMissingList(fields, missingAll);
      if optionalMissing != [] {
        found := found + [FieldFinding(line, col, UnusedOptional, className, Sorted(optionalMissing))];
      }
    }
    assert found == MissingFinding(className, fields, providedFields, d.ignored, line, col)
                    + UnusedFinding(className, fields, missingAll, line, col);
    var unknownFields := providedFields - allFields;
    if unknownFields != {} {
      found := found + [FieldFinding(line, col, UnknownField, className,
                                     SortedDistinct(UnknownList(keywords, allFields)))];
    }
  }

  /** One more keyword argument adds its name, or marks a `**mapping`. */
  lemma KeywordsStep(ks: seq<Keyword>, i: nat)
    requires i < |ks|
    ensures ProvidedNames(ks[..i + 1]) == ProvidedNames(ks[..i]) + (if ks[i].arg.Some? then {ks[i].arg.value} else {})
    ensures HasSpread(ks[..i + 1]) == (HasSpread(ks[..i]) || ks[i].arg.None?)
  {
    assert ks[..i + 1] == ks[..i] + [ks[i]];
    assert forall k :: k in ks[..i + 1] <==> k in ks[..i] || k == ks[i];
  }

  /** `check_file(filepath)` for a path already made absolute: an unreadable
      file raises, a syntax error is the single finding, otherwise the file
      is walked by a checker that has it as its current file and already
      counts it as processed. */
  method CheckFile(fs: FileSystem, path: Path) returns (r: CheckOutcome)
    ensures r == CheckFileSpec(fs, path)
  {
    var source := ReadSource(fs, path);
    if source.None? {
      return ReadFailed;
    }
    match source.value
    case SyntaxErr(lineno, offset, msg) =>
      return Reported([SyntaxFinding(OrZero(lineno), OrZero(offset), msg)]);
    case Parsed(tree, lines) =>
      var checker := new FieldChecker(fs, lines);
      checker.currentFile := Some(path);
      checker.processedFiles.paths := checker.processedFiles.paths + {path};
      assert checker.Abs() == EmptyState({path}) && checker.EnvOf() == Env(Some(path), lines, fs);
      checker.VisitAll(tree);
      assert checker.errors == checker.Abs().errors;
      return Reported(checker.errors);
  }
}
