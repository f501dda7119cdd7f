# pydantic-touchall checker, modelled in Dafny

pydantic-touchall is a linter for Python code that uses pydantic. It finds
calls of model classes and reports three kinds of problem, each at the
call's position. A model class is a class with a base written as `BaseModel`
or `Base`, either plain or after a dot. The checker walks the file once,
from top to bottom. A call is checked when, at that point of the walk, the
name it calls is a model class already declared above it in the file, or a
model class of a file loaded earlier. A load happens at a call of an imported
name that is not yet defined. It reads the module that name was imported
from and adds every model class of that module that is not yet defined.
The three problems are:

- required fields the call leaves out;
- fields with a default or an `Optional[...]` type that the call leaves out;
- keyword arguments the model does not declare.

Comments can suppress findings. The call's own line is read first, and
the line above it only when the call's line carries no marker. On the line
that decides:
- `# pydantic-touchall: ignore` (or `# touchall: ignore`) suppresses all of
  the call's findings;
- `# pydantic-touchall: ignore-field a, b` (or `# touchall: ignore-field a, b`)
  removes `a` and `b` from the missing-required and unused-optional
  findings. An unknown keyword argument is reported even when its name is
  listed.

A class imported with `from M import X` is looked up in the file `M`
resolves to, and that file's definitions are merged in.

This project models the analysis engine, `src/pydantic_touchall/checker.py`:

- `ast.dfy` (`Ast`): the part of Python's syntax tree the checker looks at.
- `text.dfy` (`Text`): substring search, `split`, `strip` and `sorted` on strings.
- `fields.dfy` (`Fields`): `FieldInfo`, which classes are models, `_extract_fields` and `_is_optional_type`.
- `directive.dfy` (`Directive`): the comment parser `_check_ignore_comment`.
- `validator.dfy` (`Validator`): the findings of `_check_instantiation`, as three parts with their set identities.
- `paths.dfy` (`Paths`): paths as component lists, a file system given as data, and `_resolve_module_path`.
- `traversal.dfy` (`Traversal`): the visit of one file as a function of the checker's state. It covers `visit_ImportFrom`, `visit_ClassDef`, `visit_Call`, `_load_imported_model` and `check_file`, and visits each node before its children.
- `traversal_facts.dfy` (`TraversalFacts`): what that walk guarantees.
- `checker.dfy` (`Checker`): `BaseModelFieldChecker` as a class.
  - Its fields are the maps, the finding list and the processed set.
  - Each method is proved to leave the object in the state the `Traversal` function computes.
  - The processed set is an object, so the checker that a load creates shares it by reference, as the source does.

Where the code and its documentation differ, the model follows the code:

- Only a base written directly as `BaseModel` or `Base` makes a model: `class Admin(User)`, with `User(BaseModel)`, is not a model, and calls of `Admin` are not checked. `TraversalFacts.SubclassCallUnchecked` proves this for that file, with `TraversalFacts.NonModelClassNotRegistered` and `TraversalFacts.KnownModelCall` for the general case.
- The file is walked once, and a class is registered when the walk reaches it. So a call that comes before its model's class statement is not checked, for example inside a factory function defined above the model. `TraversalFacts.CallBeforeClassUnchecked` proves this: `User()` above `class User(BaseModel): age: int` gives no finding, and the same call below it reports `age`. `TraversalFacts.VisitNodesAppend` and `TraversalFacts.KnownModelCall` give the general case.
- A load adds every model class of the imported file that is not yet defined, not only the imported one. So after `from m import A` and a call of `A`, a call of another class `B` of `m` is checked although `B` was never imported. `TraversalFacts.LoadMergesWholeFile` proves this.
- A model imported under an alias is never checked. `from m import User as U` binds `U`, but the load registers the class under `User`, so a call `U(...)` finds no definition. `TraversalFacts.AliasStaysUndefined` proves this.
- An `ignore-field` marker on the call's own line decides, so an `ignore` comment on the line above is then not read. `Directive.OwnFieldLineBlocksAbove` proves this.
- `check_file` does not sort the findings. They stay in the order the walk produces them.
- The checker created by `_load_imported_model` has no current file, so it never loads imports itself. Imports are not followed transitively: a model that an imported file itself imports from a third file is not found. `TraversalFacts.NestedWalkLoadsNothing` proves this.
- `visit_ImportFrom` keeps `node.module` and discards the import level. So `from .m import X` binds `X` to the absolute module `m`, and the visitor never reaches the leading-dot branch of `_resolve_module_path`. That branch is still modelled and proved, for direct calls.
- A model class statement replaces any definition of the same name made before it: an earlier class in the file, or one loaded from an import. A load never replaces a definition. `TraversalFacts.LaterClassWins` and `TraversalFacts.LoadImportedCases` prove this.
- The `strict` parameter of `check_file` is never read.
- The message of a syntax error starts with `Syntax Error:`, not with `Error:`.

## Model

| member | source | states |
|---|---|---|
| Text.IndexOf | src/pydantic_touchall/checker.py:219-226 | `p in s` / `str.find`: the index found is an occurrence of `p` and no earlier index is; with no result, `p` occurs nowhere |
| Text.After | src/pydantic_touchall/checker.py:223-226 | `s.split(p, 1)[1]` is the suffix of `s` right after the first occurrence of `p` |
| Text.AfterFirst | src/pydantic_touchall/checker.py:223-226 | when `p` first occurs right after `a`, the text after it in `a + p + t` is exactly `t` |
| Text.AfterFirstFrom | src/pydantic_touchall/checker.py:223-226 | when `p` does not occur before the end of `a`, the text after the first `p` in `a + p + t` is exactly `t` |
| Text.OccursAfter | src/pydantic_touchall/checker.py:223-226 | an occurrence of `q` that starts after the first `p` ends is in the text after that `p` |
| Text.Split | src/pydantic_touchall/checker.py:227 | `split` gives at least one piece and no piece contains the separator |
| Text.JoinSplit | src/pydantic_touchall/checker.py:103 | re-joining the pieces of `split` with the separator gives back the text |
| Text.SplitJoin | src/pydantic_touchall/checker.py:114 | splitting a join of separator-free pieces gives back the pieces |
| Text.SplitAtSeparator | src/pydantic_touchall/checker.py:227 | splitting at a first separator gives the text before it, then the pieces of the rest |
| Text.StripIsTrimmedSlice | src/pydantic_touchall/checker.py:226-227 | `strip()` cuts off exactly the leading and trailing white space, leaving a slice with no white space at either end |
| Text.Sorted | src/pydantic_touchall/checker.py:289 | `sorted(list)` is ordered and is a permutation of the list, so repeats are kept |
| Text.SortedDistinct | src/pydantic_touchall/checker.py:275 | `sorted(set)` is strictly ordered and holds exactly the set's elements |
| Text.SortedListingUnique | src/pydantic_touchall/checker.py:298 | a set has exactly one sorted listing |
| Text.ListingLength | src/pydantic_touchall/checker.py:275 | a sorted listing names each element of the set once |
| Text.LessEqTotal | src/pydantic_touchall/checker.py:275 | the order `sorted` uses on strings relates any two strings |
| Text.LessEqTransitive | src/pydantic_touchall/checker.py:289 | that order is transitive |
| Text.LessEqAntisymmetric | src/pydantic_touchall/checker.py:298 | that order is antisymmetric |
| Fields.FieldOfDeclares | src/pydantic_touchall/checker.py:71-94 | a body statement gives at most one field, exactly when it is an annotated assignment to a plain name. `has_default` holds exactly when an initializer is present; `is_optional` exactly when the annotation is `Optional[...]` or `<module>.Optional[...]` |
| Fields.FieldsOfAppend | src/pydantic_touchall/checker.py:71-83 | extraction on a concatenated body gives the first part's fields, then the second's |
| Fields.FieldsOfMembership | src/pydantic_touchall/checker.py:67-85 | a field is extracted exactly when some top-level statement of the body declares it |
| Fields.FieldPosition | src/pydantic_touchall/checker.py:71-83 | fields come out in body order: a statement's field follows the fields of all earlier statements |
| Directive.MarkerLeavesKeyword | src/pydantic_touchall/checker.py:221-225 | a line carrying a `#…ignore-field` marker has a `#`, and `ignore-field` follows its first `#` |
| Directive.FieldMarkerDecides | src/pydantic_touchall/checker.py:221-228 | on a line with a field marker the inner `ignore-field` test never fails, so such a line always decides |
| Directive.LineDirectiveCases | src/pydantic_touchall/checker.py:219-232 | the field form is tested before the bare form and never ignores everything; the bare form ignores everything; a line with neither marker decides nothing |
| Directive.DirectiveLookupOrder | src/pydantic_touchall/checker.py:208-234 | no lines or an out-of-range `lineno` gives `(False, {})`; otherwise the call's own line decides first, then the line above it, else nothing is ignored |
| Directive.OwnFieldLineBlocksAbove | src/pydantic_touchall/checker.py:212-234 | a field-scoped marker on the call's own line decides, so the call is never wholly ignored whatever the line above says |
| Directive.FirstDecisionOfPair | src/pydantic_touchall/checker.py:216-234 | the first of the candidate lines that decides gives the result |
| Directive.DirectiveShape | src/pydantic_touchall/checker.py:227-232 | a directive that ignores everything names no fields |
| Directive.FieldNamesClean | src/pydantic_touchall/checker.py:226-227 | every ignored name is a non-empty, comma-free piece with no surrounding white space, and every non-blank piece is ignored |
| Directive.AgeAddressNames | src/pydantic_touchall/checker.py:227 | `age, address` names exactly the fields `age` and `address` |
| Directive.AgeAddressLine | tests/test_checker.py:251 | the call line `user = User(  # pydantic-touchall: ignore-field age, address` ignores exactly `age` and `address` and not the whole call: the text after its `#` holds the keyword once, and what follows it splits into those two names |
| Validator.Message | src/pydantic_touchall/checker.py:270-299 | field findings' messages begin with `Error:`; syntax findings' with `Syntax Error: ` and not with `Error:` |
| Validator.MissingRequiredListElements | src/pydantic_touchall/checker.py:246-270 | the missing-required names are exactly `(required - provided) - ignored` |
| Validator.OptionalMissingListElements | src/pydantic_touchall/checker.py:281-284 | `optional_missing` holds exactly the names in `missing_all` of fields with a default or an `Optional` type |
| Validator.UnknownListElements | src/pydantic_touchall/checker.py:293 | the unknown names are exactly `provided - all` |
| Validator.MissingFinding | src/pydantic_touchall/checker.py:270-276 | at most one finding, present exactly when `(required - provided) - ignored` is non-empty; it is at the call's position and lists that set sorted |
| Validator.UnusedFinding | src/pydantic_touchall/checker.py:279-290 | at most one finding, present exactly when some field with a default or an `Optional` type is in `missing_all`; it lists those names sorted, as a permutation of `optional_missing` |
| Validator.UnknownFinding | src/pydantic_touchall/checker.py:293-299 | at most one finding, present exactly when `provided - all` is non-empty; it lists that set sorted |
| Validator.SkipRules | src/pydantic_touchall/checker.py:239-267 | an ignore-all directive or any `**mapping` argument gives no findings |
| Validator.FindingsShape | src/pydantic_touchall/checker.py:236-299 | at most three findings, at most one per kind, in the order missing, unused, unknown. Each is at the call's `lineno`/`col_offset`, about the called class, names at least one field and begins with `Error:` |
| Validator.FindingsSets | src/pydantic_touchall/checker.py:246-299 | each kind is reported exactly when its set is non-empty, and then lists that set sorted |
| Validator.UnknownIgnoresDirective | src/pydantic_touchall/checker.py:293-299 | the ignored names never change the unknown-field finding |
| Validator.MissingAndUnusedDisjoint | src/pydantic_touchall/checker.py:246-289 | with distinct field names, no name is both missing-required and unused-optional |
| Validator.ExactFieldsNoFindings | src/pydantic_touchall/checker.py:236-299 | passing exactly the declared fields by name gives no findings |
| Validator.UserCall | src/pydantic_touchall/checker.py:236-299 | `User(name=…, email=…)` reports `age` missing, then `address, nickname` unused |
| Validator.UserCallIgnoringAge | src/pydantic_touchall/checker.py:236-299 | with `ignore-field age` only the unused-optional finding remains |
| Paths.Dirname | src/pydantic_touchall/checker.py:100 | `dirname` drops the last component, and the root is its own parent |
| Paths.Ancestor | src/pydantic_touchall/checker.py:105-107 | `k` applications of `dirname` give the prefix `k` components shorter, or the root |
| Paths.LeadingDots | src/pydantic_touchall/checker.py:102 | `len(s) - len(s.lstrip('.'))` counts exactly the leading dots |
| Paths.ProjectRoot | src/pydantic_touchall/checker.py:116-125 | the search finds the nearest directory, from the current one upward and excluding the root, that holds `pyproject.toml` or `setup.py`, or finds none |
| Paths.WithSuffix | src/pydantic_touchall/checker.py:133-134 | `file_path + '.py'` adds the suffix to the last component only |
| Paths.ModuleParts | src/pydantic_touchall/checker.py:103 | a module name has at least one part |
| Paths.ModuleBase | src/pydantic_touchall/checker.py:130 | the joined path is never the root |
| Paths.PickFileChoice | src/pydantic_touchall/checker.py:132-141 | the result exists. It is `path.py`, or `path/__init__.py` only when `path.py` does not exist; `.py` wins when both exist; nothing is found exactly when neither exists |
| Paths.RelativeLookup | src/pydantic_touchall/checker.py:99-109 | a name with `k` leading dots is looked up `k - 1` parents above the current file's directory |
| Paths.AbsoluteLookup | src/pydantic_touchall/checker.py:110-130 | an absolute name is looked up under the nearest marked ancestor-or-self directory other than the root, else under the current directory |
| TraversalFacts.VisitNodeStep | src/pydantic_touchall/checker.py:36-199 | visiting a node only appends field findings. It never drops a definition or processed path, processes only existing paths, and processes none without a current file. The bound names grow by exactly the names the node's imports bind. Every model class declared in the node, nested ones included, gets an entry, and an existing definition is replaced only by such a class. Without a current file every new or changed entry is a declared model class with that class's own fields |
| TraversalFacts.VisitNodesStep | src/pydantic_touchall/checker.py:199 | the same for a list of nodes |
| TraversalFacts.LoadImportedStep | src/pydantic_touchall/checker.py:143-179 | the same for one load |
| TraversalFacts.VisitNodesAppend | src/pydantic_touchall/checker.py:330 | the walk is a left fold, so a statement sees exactly the imports and models of the statements before it |
| TraversalFacts.NestedWalkLoadsNothing | src/pydantic_touchall/checker.py:168-170 | the walk a load starts processes no file, so imports are not followed transitively |
| TraversalFacts.WalkKeeps | src/pydantic_touchall/checker.py:36-199 | along any walk, findings are only appended and processed paths never forgotten, and each newly processed path exists. Names become imported only through the walked `from M import N` statements, exactly the names they bind. Every declared model class, nested ones included, is defined afterwards, and a definition keeps its fields unless a model class of that name is declared |
| TraversalFacts.NestedWalkDeclares | src/pydantic_touchall/checker.py:164-170 | the fresh checker of a load defines exactly the model classes of the imported file, nested ones included, each with the fields of a class statement of that name there; it binds exactly the names the file's imports bind and processes nothing |
| TraversalFacts.LoadImportedCases | src/pydantic_touchall/checker.py:143-179 | nothing changes when the name is defined, not imported, not resolvable or already processed. Otherwise the path becomes processed, bindings and findings are untouched and existing definitions are kept. A parsed file adds exactly the model classes it declares, nested ones included, that are not yet defined, each with the fields of a class statement of that name in it; an unreadable or unparsable file adds none |
| TraversalFacts.AliasStaysUndefined | src/pydantic_touchall/checker.py:143-179 | when the called name names no model class of the file its import resolves to, as with an `as` alias, the name is still undefined after the load |
| TraversalFacts.LoadMergesWholeFile | src/pydantic_touchall/checker.py:164-174 | a load defines every model class of the imported file that was not defined, whether or not it was imported |
| TraversalFacts.BindAllSpec | src/pydantic_touchall/checker.py:42-48 | a local name is bound exactly when it was bound before or some `as`-name (else name) other than `*` binds it, and to the statement's module |
| TraversalFacts.ImportFromVisit | src/pydantic_touchall/checker.py:36-50 | an import without a module binds nothing. Otherwise only the bindings change: exactly the names of its aliases other than `*` are added, each bound to `node.module`, whatever the level |
| TraversalFacts.ModelClassRegistered | src/pydantic_touchall/checker.py:52-65 | a model class statement leaves its extracted fields under its name, unless a model class of that name is declared inside it |
| TraversalFacts.NestedModelRegistered | src/pydantic_touchall/checker.py:61-65 | a model class statement in a class body is registered too, since `generic_visit` walks the body |
| TraversalFacts.NonModelClassNotRegistered | src/pydantic_touchall/checker.py:52-65 | a class statement with no model base makes no entry of its own: an existing definition of its name is kept, and without a current file its name is defined afterwards exactly when it was before |
| TraversalFacts.LaterClassWins | src/pydantic_touchall/checker.py:61-63 | of two same-named model classes in a file, the later one's fields are kept |
| TraversalFacts.KnownModelCall | src/pydantic_touchall/checker.py:181-199 | a call of a model already defined appends its instantiation findings before its arguments are visited; a call of an unknown, unimported name changes nothing |
| TraversalFacts.SubclassCallUnchecked | src/pydantic_touchall/checker.py:52-65 | after `class User(BaseModel): age: int` and `class Admin(User)`, `Admin()` gives no finding and `Admin` is never defined, while `User` is |
| TraversalFacts.CallBeforeClassUnchecked | src/pydantic_touchall/checker.py:181-199 | `User()` before `class User(BaseModel): age: int` gives no finding; the same call after it gives at least one (`age` is missing) |
| TraversalFacts.CheckFileOutcomes | src/pydantic_touchall/checker.py:302-332 | an unreadable file raises. A file that does not parse gives one `Syntax Error: ` finding at the error's position, or 0 where it is missing. A parsed file gives only field findings, in walk order |
| Checker.PathSet.constructor | src/pydantic_touchall/checker.py:23 | the processed set starts as given |
| Checker.FieldChecker.constructor | src/pydantic_touchall/checker.py:19-25 | a new checker has no definitions, bindings, findings or processed files, and no current file |
| Checker.FieldChecker.Visit | src/pydantic_touchall/checker.py:36-199 | the visitor leaves the checker in the state `Traversal.VisitNode` computes |
| Checker.FieldChecker.VisitAll | src/pydantic_touchall/checker.py:65 | `generic_visit` over a list of children leaves the state `Traversal.VisitNodes` computes |
| Checker.FieldChecker.VisitKeywordValues | src/pydantic_touchall/checker.py:199 | the same for keyword argument values |
| Checker.FieldChecker.VisitImportFrom | src/pydantic_touchall/checker.py:36-50 | the loop leaves the bindings `Traversal.BindAll` computes |
| Checker.FieldChecker.VisitClassDef | src/pydantic_touchall/checker.py:52-65 | registers a model class, then visits the children |
| Checker.FieldChecker.ExtractFields | src/pydantic_touchall/checker.py:67-85 | the loop returns `Fields.FieldsOf` of the body |
| Checker.FieldChecker.ResolveModulePath | src/pydantic_touchall/checker.py:96-141 | both loops return `Paths.Resolve` |
| Checker.FieldChecker.LoadImportedModel | src/pydantic_touchall/checker.py:143-179 | the end state is `Traversal.LoadImported` |
| Checker.FieldChecker.WalkImported | src/pydantic_touchall/checker.py:166-169 | a fresh checker sharing the processed set walks the imported tree; its definitions and the shared set end as `Traversal.VisitNodes` computes without a current file |
| Checker.FieldChecker.MergeDefinitions | src/pydantic_touchall/checker.py:172-175 | the merge loop gives `Traversal.MergeDefs` |
| Checker.FieldChecker.VisitCall | src/pydantic_touchall/checker.py:181-199 | check the call, then visit the children, ending in the state `Traversal.VisitNode` computes |
| Checker.FieldChecker.CheckCall | src/pydantic_touchall/checker.py:183-197 | the class name from `Name` or `Attribute`, the load with a current file, then the check of a known model, ending in the state `Traversal.CallStep` computes |
| Checker.FieldChecker.CheckIgnoreComment | src/pydantic_touchall/checker.py:201-234 | the loop returns `Directive.DirectiveAt` of the file's lines |
| Checker.FieldChecker.CheckInstantiation | src/pydantic_touchall/checker.py:236-299 | appends exactly `Validator.InstantiationFindings` for the call and its directive |
| Checker.ScanKeywords | src/pydantic_touchall/checker.py:255-263 | the keyword names given, and whether some `**mapping` was given |
| Checker.CallFindings | src/pydantic_touchall/checker.py:240-299 | the appended findings equal `Validator.InstantiationFindings` |
| Checker.CheckFile | src/pydantic_touchall/checker.py:302-332 | returns `Traversal.CheckFileSpec` |

## Left out

- Reading files and `ast.parse` are inputs. The file system maps each readable path to either its parsed tree and lines or the `SyntaxError` it raises. A path with no entry raises `OSError`. Other parser exceptions are not modelled.
- Real file-system access (`os.path.exists`, `os.getcwd`, `os.path.abspath`) is left out. The file system is a given set of existing paths, and `check_file` receives an already-absolute path.
- `os.path.join` is list concatenation. Empty components are kept, though `os.path.join` and the operating system would collapse them.
- `source.splitlines()` is not modelled; the parsed file's lines are part of the input.
- The syntax tree keeps only the node kinds the checker distinguishes. Every other node is `Other` with its children in field order.
- The Japanese message text is not modelled. A finding keeps the position, kind, class and sorted names, and its message only the leading `Error:` or `Syntax Error: `.
- `sorted` compares strings by code point. Dafny's `char` is a Unicode scalar value, so `LessEq` is that order for every string, including code points above U+FFFF.
- Opening an imported file with `encoding='utf-8'` and reading it (`src/pydantic_touchall/checker.py:162-163`) raises `UnicodeDecodeError`, a `ValueError`, on bytes that are not UTF-8. The handler at `src/pydantic_touchall/checker.py:177` catches only `OSError` and `SyntaxError`, so that error escapes `visit_Call` and `check_file`. The file system here maps a path only to a parsed tree, a `SyntaxError` or nothing, so the model cannot represent this case.
- `visit_Import` binds nothing, so it is not modelled.
- `base_path` is only passed along, so it is not modelled.
- The `strict` flag is never read, so it is not modelled.
- `src/pydantic_touchall/cli.py` (argument parsing, printing, exit codes) is not part of this model.
