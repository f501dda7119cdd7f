/** What one call of a model class is checked for (`_check_instantiation`):
    required fields it leaves out, fields with a default or `Optional`
    type it leaves out, and keyword arguments the model does not declare. */
module Validator {
  import opened Text
  import opened Ast
  import opened Fields
  import opened Directive

  datatype FindingKind = MissingRequired | UnusedOptional | UnknownField

  /** One reported problem. A field finding keeps the call's position, the
      class, what is wrong and the names involved, sorted; the wording of the
      message around them is not modelled. A syntax finding is what a file
      that does not parse reports. */
  datatype Finding =
    | FieldFinding(line: int, col: int, kind: FindingKind, className: string, names: seq<string>)
    | SyntaxFinding(line: int, col: int, msg: string)

  /** The message text as far as it is modelled: field findings begin with
      `Error:`, syntax findings with `Syntax Error:`. */
  function Message(f: Finding): (m: string)
    ensures f.FieldFinding? ==> "Error:" <= m
    ensures f.SyntaxFinding? ==> "Syntax Error: " <= m && !("Error:" <= m)
  {
    match f
    case FieldFinding(_, _, _, className, names) => "Error: " + className + ": " + Join(names, ", ")
    case SyntaxFinding(_, _, msg) =>
      var m := "Syntax Error: " + msg;
      assert m[0] == 'S' && "Error:"[0] == 'E';
      m
  }

  // ---------------------------------------------------------------------------
  // The sets of `_check_instantiation`

  predicate IsRequired(f: FieldInfo) {
    !f.hasDefault && !f.isOptional
  }

  /** `required_fields`. */
  function RequiredNames(fields: seq<FieldInfo>): set<string> {
    set f | f in fields && IsRequired(f) :: f.name
  }

  /** `all_fields`. */
  function AllNames(fields: seq<FieldInfo>): set<string> {
    set f | f in fields :: f.name
  }

  /** `provided_fields`: the names of the keyword arguments. */
  function ProvidedNames(keywords: seq<Keyword>): set<string> {
    set k | k in keywords && k.arg.Some? :: k.arg.value
  }

  /** Some keyword argument is `**mapping`. */
  predicate HasSpread(keywords: seq<Keyword>) {
    exists k :: k in keywords && k.arg.None?
  }

  /** Required fields, in field order, that are neither provided nor ignored. */
  function MissingRequiredList(fields: seq<FieldInfo>, provided: set<string>, ignored: set<string>): seq<string>
    decreases |fields|
  {
    if fields == [] then []
    else
      var f := fields[0];
      (if IsRequired(f) && f.name !in provided && f.name !in ignored then [f.name] else [])
      + MissingRequiredList(fields[1..], provided, ignored)
  }

  /** `optional_missing`: the fields, in field order and with repeats, whose
      name is in `missingAll` and that have a default or are optional. */
  function OptionalMissingList(fields: seq<FieldInfo>, missingAll: set<string>): seq<string>
    decreases |fields|
  {
    if fields == [] then []
    else
      var f := fields[0];
      (if f.name in missingAll && (f.hasDefault || f.isOptional) then [f.name] else [])
      + OptionalMissingList(fields[1..], missingAll)
  }

  /** Keyword names, in argument order, that the model does not declare. */
  function UnknownList(keywords: seq<Keyword>, all: set<string>): seq<string>
    decreases |keywords|
  {
    if keywords == [] then []
    else
      var k := keywords[0];
      (if k.arg.Some? && k.arg.value !in all then [k.arg.value] else [])
      + UnknownList(keywords[1..], all)
  }

  /** The missing-required finding: present exactly when some required
      field is neither provided nor ignored, and then listing exactly those
      names, sorted. */
  function MissingFinding(className: string, fields: seq<FieldInfo>, provided: set<string>,
                          ignored: set<string>, line: int, col: int): (r: seq<Finding>)
    ensures |r| <= 1
    ensures r != [] <==> (RequiredNames(fields) - provided) - ignored != {}
    ensures r != [] ==>
      && r[0].FieldFinding? && r[0] == FieldFinding(line, col, MissingRequired, className, r[0].names)
      && SortedListing(r[0].names, (RequiredNames(fields) - provided) - ignored)
  {
    MissingRequiredListElements(fields, provided, ignored);
    if (RequiredNames(fields) - provided) - ignored != {} then
      [FieldFinding(line, col, MissingRequired, className,
                    SortedDistinct(MissingRequiredList(fields, provided, ignored)))]
    else []
  }

  /** The unused-optional finding: present exactly when some field with a
      default or an `Optional` type has its name in `missingAll`, and then
      listing those fields' names (once per such field), sorted. */
  function UnusedFinding(className: string, fields: seq<FieldInfo>, missingAll: set<string>,
                         line: int, col: int): (r: seq<Finding>)
    ensures |r| <= 1
    ensures r != [] <==> UnusedOptionalNames(fields, missingAll) != {}
    ensures r != [] ==>
      && r[0].FieldFinding? && r[0] == FieldFinding(line, col, UnusedOptional, className, r[0].names)
      && SortedLe(r[0].names)
      && multiset(r[0].names) == multiset(OptionalMissingList(fields, missingAll))
      && forall y :: y in r[0].names <==> y in UnusedOptionalNames(fields, missingAll)
  {
    var optionalMissing := OptionalMissingList(fields, missingAll);
    OptionalMissingListElements(fields, missingAll);
    if missingAll != {} && optionalMissing != [] then
      var names := Sorted(optionalMissing);
      forall y ensures y in names <==> y in optionalMissing {
        assert (y in names) == (y in multiset(names));
      }
      assert optionalMissing[0] in optionalMissing;
      [FieldFinding(line, col, UnusedOptional, className, names)]
    else
      assert UnusedOptionalNames(fields, missingAll) != {} ==> missingAll != {};
      []
  }

  /** The unknown-field finding: present exactly when some keyword name is
      not a declared field, and then listing exactly those names, sorted. */
  function UnknownFinding(className: string, keywords: seq<Keyword>, all: set<string>,
                          line: int, col: int): (r: seq<Finding>)
    ensures |r| <= 1
    ensures r != [] <==> ProvidedNames(keywords) - all != {}
    ensures r != [] ==>
      && r[0].FieldFinding? && r[0] == FieldFinding(line, col, UnknownField, className, r[0].names)
      && SortedListing(r[0].names, ProvidedNames(keywords) - all)
  {
    UnknownListElements(keywords, all);
    if ProvidedNames(keywords) - all != {} then
      [FieldFinding(line, col, UnknownField, className, SortedDistinct(UnknownList(keywords, all)))]
    else []
  }

  /** The findings `_check_instantiation` appends for one call, in the order it appends them. */
  function InstantiationFindings(className: string, fields: seq<FieldInfo>, keywords: seq<Keyword>,
                                 d: Directive, line: int, col: int): seq<Finding>
  {
    if d.ignoreAll || HasSpread(keywords) then []
    else
      var provided := ProvidedNames(keywords);
      var all := AllNames(fields);
      MissingFinding(className, fields, provided, d.ignored, line, col)
      + UnusedFinding(className, fields, (all - provided) - d.ignored, line, col)
      + UnknownFinding(className, keywords, all, line, col)
  }

  // ---------------------------------------------------------------------------
  // Properties

  /** The names of the `MissingRequired` list are exactly `(required - provided) - ignored`. */
  lemma {:induction false} MissingRequiredListElements(fields: seq<FieldInfo>, provided: set<string>, ignored: set<string>)
    ensures forall y :: y in MissingRequiredList(fields, provided, ignored) <==>
      y in (RequiredNames(fields) - provided) - ignored
    decreases |fields|
  {
    if fields != [] {
      MissingRequiredListElements(fields[1..], provided, ignored);
      assert fields == [fields[0]] + fields[1..];
      assert RequiredNames(fields) == (if IsRequired(fields[0]) then {fields[0].name} else {}) + RequiredNames(fields[1..]);
    }
  }

  /** The names of fields with a default or an `Optional` type whose name is in `missingAll`. */
  function UnusedOptionalNames(fields: seq<FieldInfo>, missingAll: set<string>): set<string> {
    set f | f in fields && f.name in missingAll && (f.hasDefault || f.isOptional) :: f.name
  }

  lemma {:induction false} OptionalMissingListElements(fields: seq<FieldInfo>, missingAll: set<string>)
    ensures forall y :: y in OptionalMissingList(fields, missingAll) <==> y in UnusedOptionalNames(fields, missingAll)
    decreases |fields|
  {
    if fields != [] {
      OptionalMissingListElements(fields[1..], missingAll);
      assert fields == [fields[0]] + fields[1..];
      assert UnusedOptionalNames(fields, missingAll) ==
        (if fields[0].name in missingAll && (fields[0].hasDefault || fields[0].isOptional) then {fields[0].name} else {})
        + UnusedOptionalNames(fields[1..], missingAll);
    }
  }

  lemma {:induction false} UnknownListElements(keywords: seq<Keyword>, all: set<string>)
    ensures forall y :: y in UnknownList(keywords, all) <==> y in ProvidedNames(keywords) - all
    decreases |keywords|
  {
    if keywords != [] {
      UnknownListElements(keywords[1..], all);
      assert keywords == [keywords[0]] + keywords[1..];
      assert ProvidedNames(keywords) ==
        (if keywords[0].arg.Some? then {keywords[0].arg.value} else {}) + ProvidedNames(keywords[1..]);
    }
  }

  /** The names of the first finding of `kind` in `fs`, if there is one. */
  function NamesOf(fs: seq<Finding>, kind: FindingKind): Option<seq<string>>
    decreases |fs|
  {
    if fs == [] then None
    else if fs[0].FieldFinding? && fs[0].kind == kind then Some(fs[0].names)
    else NamesOf(fs[1..], kind)
  }

  lemma {:induction false} NamesOfAppend(a: seq<Finding>, b: seq<Finding>, kind: FindingKind)
    ensures NamesOf(a + b, kind) == if NamesOf(a, kind).Some? then NamesOf(a, kind) else NamesOf(b, kind)
    decreases |a|
  {
    if a != [] {
      assert (a + b)[1..] == a[1..] + b;
      NamesOfAppend(a[1..], b, kind);
    } else {
      assert a + b == b;
    }
  }

  function Rank(kind: FindingKind): nat {
    match kind
    case MissingRequired => 0
    case UnusedOptional => 1
    case UnknownField => 2
  }

  /** Skip rules: a directive that ignores everything, or any `**mapping`
      argument, leaves the call unchecked. */
  lemma SkipRules(className: string, fields: seq<FieldInfo>, keywords: seq<Keyword>, d: Directive, line: int, col: int)
    requires d.ignoreAll || HasSpread(keywords)
    ensures InstantiationFindings(className, fields, keywords, d, line, col) == []
  {
  }

  /** Output shape: at most three findings, at most one of each kind, in the
      order missing-required, unused-optional, unknown; each at the call's
      position, about the called class, naming at least one field, with a
      message that begins with `Error:`. */
  lemma FindingsShape(className: string, fields: seq<FieldInfo>, keywords: seq<Keyword>, d: Directive, line: int, col: int)
    ensures var r := InstantiationFindings(className, fields, keywords, d, line, col);
      && |r| <= 3
      && (forall i :: 0 <= i < |r| ==>
            && r[i].FieldFinding? && r[i].line == line && r[i].col == col
            && r[i].className == className && r[i].names != []
            && "Error:" <= Message(r[i]))
      && (forall i, j :: 0 <= i < j < |r| ==> Rank(r[i].kind) < Rank(r[j].kind))
  {
    if !d.ignoreAll && !HasSpread(keywords) {
      var provided := ProvidedNames(keywords);
      var all := AllNames(fields);
      var missingAll := (all - provided) - d.ignored;
      var a := MissingFinding(className, fields, provided, d.ignored, line, col);
      var b := UnusedFinding(className, fields, missingAll, line, col);
      var c := UnknownFinding(className, keywords, all, line, col);
      if a != [] {
        var y :| y in (RequiredNames(fields) - provided) - d.ignored;
        assert y in a[0].names;
      }
      if b != [] {
        var y :| y in UnusedOptionalNames(fields, missingAll);
        assert y in b[0].names;
      }
      if c != [] {
        var y :| y in ProvidedNames(keywords) - all;
        assert y in c[0].names;
      }
      assert Part(a, MissingRequired, line, col, className);
      assert Part(b, UnusedOptional, line, col, className);
      assert Part(c, UnknownField, line, col, className);
      PartsShape(a, b, c, line, col, className);
    }
  }

  /** At most one finding, of kind `k`, at this position, about this class, naming some field. */
  predicate Part(p: seq<Finding>, k: FindingKind, line: int, col: int, className: string) {
    && |p| <= 1
    && (p != [] ==>
          && p[0].FieldFinding? && p[0].kind == k && p[0].line == line && p[0].col == col
          && p[0].className == className && p[0].names != [])
  }

  lemma PartsShape(a: seq<Finding>, b: seq<Finding>, c: seq<Finding>, line: int, col: int, className: string)
    requires Part(a, MissingRequired, line, col, className)
    requires Part(b, UnusedOptional, line, col, className)
    requires Part(c, UnknownField, line, col, className)
    ensures var r := a + b + c;
      && |r| <= 3
      && (forall i :: 0 <= i < |r| ==>
            && r[i].FieldFinding? && r[i].line == line && r[i].col == col
            && r[i].className == className && r[i].names != []
            && "Error:" <= Message(r[i]))
      && (forall i, j :: 0 <= i < j < |r| ==> Rank(r[i].kind) < Rank(r[j].kind))
  {
    var r := a + b + c;
    forall i | 0 <= i < |r|
      ensures r[i] == (if i < |a| then a[0] else if i < |a| + |b| then b[0] else c[0])
    {
    }
  }

  /** The set identities of `_check_instantiation`: with `provided` the
      keyword names, a missing-required finding appears exactly when
      `(required - provided) - ignored` is not empty and lists that set
      sorted; an unused-optional finding appears exactly when some field with
      a default or an `Optional` type has its name in
      `(all - provided) - ignored`, and lists those names sorted; an unknown
      finding appears exactly when `provided - all` is not empty and lists it
      sorted, whatever is ignored. */
  lemma FindingsSets(className: string, fields: seq<FieldInfo>, keywords: seq<Keyword>, d: Directive, line: int, col: int)
    requires !d.ignoreAll && !HasSpread(keywords)
    ensures var r := InstantiationFindings(className, fields, keywords, d, line, col);
      var provided := ProvidedNames(keywords);
      var missing := (RequiredNames(fields) - provided) - d.ignored;
      var unused := UnusedOptionalNames(fields, (AllNames(fields) - provided) - d.ignored);
      var unknown := provided - AllNames(fields);
      && (NamesOf(r, MissingRequired).Some? <==> missing != {})
      && (NamesOf(r, MissingRequired).Some? ==> SortedListing(NamesOf(r, MissingRequired).value, missing))
      && (NamesOf(r, UnusedOptional).Some? <==> unused != {})
      && (NamesOf(r, UnusedOptional).Some? ==>
            SortedLe(NamesOf(r, UnusedOptional).value)
            && forall y :: y in NamesOf(r, UnusedOptional).value <==> y in unused)
      && (NamesOf(r, UnknownField).Some? <==> unknown != {})
      && (NamesOf(r, UnknownField).Some? ==> SortedListing(NamesOf(r, UnknownField).value, unknown))
  {
    var provided := ProvidedNames(keywords);
    var all := AllNames(fields);
    var a := MissingFinding(className, fields, provided, d.ignored, line, col);
    var b := UnusedFinding(className, fields, (all - provided) - d.ignored, line, col);
    var c := UnknownFinding(className, keywords, all, line, col);
    PartsNames(a, b, c);
  }

  lemma PartsNames(a: seq<Finding>, b: seq<Finding>, c: seq<Finding>)
    requires |a| <= 1 && (a != [] ==> a[0].FieldFinding? && a[0].kind == MissingRequired)
    requires |b| <= 1 && (b != [] ==> b[0].FieldFinding? && b[0].kind == UnusedOptional)
    requires |c| <= 1 && (c != [] ==> c[0].FieldFinding? && c[0].kind == UnknownField)
    ensures NamesOf(a + b + c, MissingRequired) == if a != [] then Some(a[0].names) else None
    ensures NamesOf(a + b + c, UnusedOptional) == if b != [] then Some(b[0].names) else None
    ensures NamesOf(a + b + c, UnknownField) == if c != [] then Some(c[0].names) else None
  {
    forall kind ensures NamesOf(a + b + c, kind) ==
      if NamesOf(a, kind).Some? then NamesOf(a, kind)
      else if NamesOf(b, kind).Some? then NamesOf(b, kind)
      else NamesOf(c, kind)
    {
      NamesOfAppend(a + b, c, kind);
      NamesOfAppend(a, b, kind);
    }
    SingleNames(a, MissingRequired);
    SingleNames(b, UnusedOptional);
    SingleNames(c, UnknownField);
  }

  /** A part of at most one finding, of kind `k` when present, names `k` exactly when present. */
  lemma SingleNames(p: seq<Finding>, k: FindingKind)
    requires |p| <= 1 && (p != [] ==> p[0].FieldFinding? && p[0].kind == k)
    ensures forall kind :: NamesOf(p, kind) == if p != [] && kind == k then Some(p[0].names) else None
  {
    if p != [] {
      assert p[1..] == [];
    }
  }

  /** Ignored names never change the unknown-field finding. */
  lemma UnknownIgnoresDirective(className: string, fields: seq<FieldInfo>, keywords: seq<Keyword>,
                                d1: Directive, d2: Directive, line: int, col: int)
    requires !d1.ignoreAll && !d2.ignoreAll && !HasSpread(keywords)
    ensures NamesOf(InstantiationFindings(className, fields, keywords, d1, line, col), UnknownField)
         == NamesOf(InstantiationFindings(className, fields, keywords, d2, line, col), UnknownField)
  {
    FindingsSets(className, fields, keywords, d1, line, col);
    FindingsSets(className, fields, keywords, d2, line, col);
    var n1 := NamesOf(InstantiationFindings(className, fields, keywords, d1, line, col), UnknownField);
    var n2 := NamesOf(InstantiationFindings(className, fields, keywords, d2, line, col), UnknownField);
    if n1.Some? {
      SortedListingUnique(n1.value, n2.value, ProvidedNames(keywords) - AllNames(fields));
    }
  }

  predicate DistinctNames(fields: seq<FieldInfo>) {
    forall i, j :: 0 <= i < j < |fields| ==> fields[i].name != fields[j].name
  }

  /** When the model's field names are distinct, no name is reported both as
      a missing required field and as an unused optional one. */
  lemma MissingAndUnusedDisjoint(className: string, fields: seq<FieldInfo>, keywords: seq<Keyword>, d: Directive, line: int, col: int)
    requires DistinctNames(fields)
    ensures var r := InstantiationFindings(className, fields, keywords, d, line, col);
      NamesOf(r, MissingRequired).Some? && NamesOf(r, UnusedOptional).Some? ==>
        forall y :: y in NamesOf(r, MissingRequired).value ==> y !in NamesOf(r, UnusedOptional).value
  {
    if !d.ignoreAll && !HasSpread(keywords) {
      FindingsSets(className, fields, keywords, d, line, col);
      var provided := ProvidedNames(keywords);
      var unused := UnusedOptionalNames(fields, (AllNames(fields) - provided) - d.ignored);
      forall y | y in RequiredNames(fields) ensures y !in unused {
        var i :| 0 <= i < |fields| && IsRequired(fields[i]) && fields[i].name == y;
        assert forall j :: 0 <= j < |fields| && fields[j].name == y ==> j == i;
        assert forall g :: g in fields && g.name == y ==> IsRequired(g);
      }
    }
  }

  /** Supplying exactly the declared fields, by name, reports nothing, whatever the directive. */
  lemma ExactFieldsNoFindings(className: string, fields: seq<FieldInfo>, keywords: seq<Keyword>, d: Directive, line: int, col: int)
    requires !HasSpread(keywords) && ProvidedNames(keywords) == AllNames(fields)
    ensures InstantiationFindings(className, fields, keywords, d, line, col) == []
  {
    var missingAll := (AllNames(fields) - ProvidedNames(keywords)) - d.ignored;
    assert missingAll == {};
    OptionalMissingListElements(fields, missingAll);
  }

  // ---------------------------------------------------------------------------
  // A worked call

  /** The `User` model with required `name`, `email` and `age`, an
      `Optional` `address` defaulting to `None` and a `nickname` with a
      default. */
  const UserFields := [FieldInfo("name", false, false), FieldInfo("email", false, false),
                       FieldInfo("age", false, false), FieldInfo("address", true, true),
                       FieldInfo("nickname", true, false)]

  const UserKeywords := [Keyword(Some("name"), Name("n")), Keyword(Some("email"), Name("e"))]

  const UserProvided: set<string> := {"name", "email"}
  const UserAll: set<string> := {"name", "email", "age", "address", "nickname"}

  /** `User(name=..., email=...)` reports `age` as missing and `address` and
      `nickname` as unused optionals, in that order. */
  lemma UserCall(line: int, col: int)
    ensures InstantiationFindings("User", UserFields, UserKeywords, NoDirective, line, col)
         == [FieldFinding(line, col, MissingRequired, "User", ["age"]),
             FieldFinding(line, col, UnusedOptional, "User", ["address", "nickname"])]
  {
    var missing := FieldFinding(line, col, MissingRequired, "User", ["age"]);
    var unused := FieldFinding(line, col, UnusedOptional, "User", ["address", "nickname"]);
    UserCallParts(line, col);
    UserMissingPart(line, col);
    UserUnusedPart({"age", "address", "nickname"}, line, col);
    UserUnknownPart(line, col);
    JoinedPair(InstantiationFindings("User", UserFields, UserKeywords, NoDirective, line, col),
                MissingFinding("User", UserFields, UserProvided, {}, line, col),
                UnusedFinding("User", UserFields, {"age", "address", "nickname"}, line, col),
                UnknownFinding("User", UserKeywords, UserAll, line, col), missing, unused);
  }

  /** Findings made of a one-finding part, another one-finding part and an
      empty part are the pair of those two findings. */
  lemma JoinedPair(whole: seq<Finding>, m: seq<Finding>, u: seq<Finding>, k: seq<Finding>, a: Finding, b: Finding)
    requires whole == m + u + k && m == [a] && u == [b] && k == []
    ensures whole == [a, b]
  {
  }

  lemma UserCallParts(line: int, col: int)
    ensures InstantiationFindings("User", UserFields, UserKeywords, NoDirective, line, col)
         == MissingFinding("User", UserFields, UserProvided, {}, line, col)
            + UnusedFinding("User", UserFields, {"age", "address", "nickname"}, line, col)
            + UnknownFinding("User", UserKeywords, UserAll, line, col)
  {
    UserCallSets();
    UserMissingAll();
    FindingsParts("User", UserFields, UserKeywords, NoDirective, line, col);
  }

  /** With `age` named in an `ignore-field` directive only the optionals remain. */
  lemma UserCallIgnoringAge(line: int, col: int)
    ensures InstantiationFindings("User", UserFields, UserKeywords, Directive(false, {"age"}), line, col)
         == [FieldFinding(line, col, UnusedOptional, "User", ["address", "nickname"])]
  {
    UserCallSets();
    FindingsParts("User", UserFields, UserKeywords, Directive(false, {"age"}), line, col);
    UserMissingAll();
    UserIgnoredMissingPart(line, col);
    UserUnusedPart({"address", "nickname"}, line, col);
    UserUnknownPart(line, col);
  }

  lemma FindingsParts(className: string, fields: seq<FieldInfo>, keywords: seq<Keyword>, d: Directive, line: int, col: int)
    requires !d.ignoreAll && !HasSpread(keywords)
    ensures InstantiationFindings(className, fields, keywords, d, line, col)
         == MissingFinding(className, fields, ProvidedNames(keywords), d.ignored, line, col)
            + UnusedFinding(className, fields, (AllNames(fields) - ProvidedNames(keywords)) - d.ignored, line, col)
            + UnknownFinding(className, keywords, AllNames(fields), line, col)
  {
  }

  lemma UserMissingAll()
    ensures (UserAll - UserProvided) - {} == {"age", "address", "nickname"}
    ensures (UserAll - UserProvided) - {"age"} == {"address", "nickname"}
  {
  }

  lemma UserMissingPart(line: int, col: int)
    ensures MissingFinding("User", UserFields, UserProvided, {}, line, col)
         == [FieldFinding(line, col, MissingRequired, "User", ["age"])]
  {
    UserCallSets();
    assert (RequiredNames(UserFields) - UserProvided) - {} == {"age"};
    UserMissing();
    UserMissingSorted();
  }

  lemma UserIgnoredMissingPart(line: int, col: int)
    ensures MissingFinding("User", UserFields, UserProvided, {"age"}, line, col) == []
  {
    UserCallSets();
    assert (RequiredNames(UserFields) - UserProvided) - {"age"} == {};
  }

  lemma UserUnusedPart(missingAll: set<string>, line: int, col: int)
    requires missingAll == {"age", "address", "nickname"} || missingAll == {"address", "nickname"}
    ensures UnusedFinding("User", UserFields, missingAll, line, col)
         == [FieldFinding(line, col, UnusedOptional, "User", ["address", "nickname"])]
  {
    if missingAll == {"age", "address", "nickname"} {
      UserOptionals();
    } else {
      UserOptionalsIgnoringAge();
    }
    UserOptionalsSorted();
  }

  lemma UserUnknownPart(line: int, col: int)
    ensures UnknownFinding("User", UserKeywords, UserAll, line, col) == []
  {
    UserCallSets();
    assert UserProvided - UserAll == {};
  }

  lemma UserCallSets()
    ensures ProvidedNames(UserKeywords) == UserProvided
    ensures !HasSpread(UserKeywords)
    ensures RequiredNames(UserFields) == {"name", "email", "age"}
    ensures AllNames(UserFields) == UserAll
  {
  }

  lemma UserOptionals()
    ensures OptionalMissingList(UserFields, {"age", "address", "nickname"}) == ["address", "nickname"]
  {
  }

  lemma UserOptionalsIgnoringAge()
    ensures OptionalMissingList(UserFields, {"address", "nickname"}) == ["address", "nickname"]
  {
  }

  lemma UserOptionalsSorted()
    ensures Sorted(["address", "nickname"]) == ["address", "nickname"]
  {
  }

  lemma UserMissing()
    ensures MissingRequiredList(UserFields, UserProvided, {}) == ["age"]
  {
  }

  lemma UserMissingSorted()
    ensures SortedDistinct(["age"]) == ["age"]
  {
  }
}
