/** Which classes are models, and the fields a model class declares
    (`visit_ClassDef`'s base test, `_extract_fields`, `_is_optional_type`). */
module Fields {
  import opened Text
  import opened Ast

  /** One declared field of a model. */
  datatype FieldInfo = FieldInfo(name: string, hasDefault: bool, isOptional: bool)

  /** The base-class names that make a class a model. */
  const ModelBaseNames: set<string> := {"BaseModel", "Base"}

  /** `_is_optional_type`: a subscripted annotation whose base is `Optional`,
      written plainly or as an attribute (`typing.Optional`). */
  predicate IsOptionalType(annotation: Node) {
    match annotation
    case Subscript(Name(id), _) => id == "Optional"
    case Subscript(Attribute(_, attr), _) => attr == "Optional"
    case _ => false
  }

  /** One base expression of a class names a model base. */
  predicate IsModelBase(base: Node) {
    (base.Name? && base.id in ModelBaseNames) || (base.Attribute? && base.attr in ModelBaseNames)
  }

  /** The `any(...)` over `node.bases` in `visit_ClassDef`. */
  predicate IsModelClass(bases: seq<Node>) {
    exists b :: b in bases && IsModelBase(b)
  }

  /** The field one class-body statement contributes, if any. */
  function FieldOf(item: Node): seq<FieldInfo> {
    match item
    case AnnAssign(Name(id), annotation, initializer) =>
      [FieldInfo(id, initializer.Some?, IsOptionalType(annotation))]
    case _ => []
  }

  /** The fields of a class body, in body order: the list `_extract_fields` builds. */
  function FieldsOf(body: seq<Node>): seq<FieldInfo>
    decreases |body|
  {
    if body == [] then [] else FieldsOf(body[..|body| - 1]) + FieldOf(body[|body| - 1])
  }

  /** `item` is an annotated assignment to a plain name that declares `f`:
      it has a default exactly when it has an initializer and it is optional
      exactly when its annotation is `Optional[...]` or `<module>.Optional[...]`. */
  ghost predicate Declares(item: Node, f: FieldInfo) {
    && item.AnnAssign?
    && item.target == Name(f.name)
    && f.hasDefault == item.initializer.Some?
    && f.isOptional == (item.annotation.Subscript?
                        && (item.annotation.value == Name("Optional")
                            || (item.annotation.value.Attribute? && item.annotation.value.attr == "Optional")))
  }

  /** A statement contributes at most one field, and the one it contributes is the one it declares. */
  lemma FieldOfDeclares(item: Node)
    ensures |FieldOf(item)| <= 1
    ensures forall f :: f in FieldOf(item) <==> Declares(item, f)
  {
  }

  /** Extraction respects concatenation of bodies, so fields come out in body order. */
  lemma {:induction false} FieldsOfAppend(a: seq<Node>, b: seq<Node>)
    ensures FieldsOf(a + b) == FieldsOf(a) + FieldsOf(b)
    decreases |b|
  {
    if b == [] {
      assert a + b == a;
    } else {
      var b' := b[..|b| - 1];
      assert (a + b)[..|a + b| - 1] == a + b';
      assert (a + b)[|a + b| - 1] == b[|b| - 1];
      FieldsOfAppend(a, b');
    }
  }

  /** A field is extracted exactly when some top-level statement of the body declares it:
      unannotated assignments, annotated attributes and nested definitions give none. */
  lemma {:induction false} FieldsOfMembership(body: seq<Node>, f: FieldInfo)
    ensures f in FieldsOf(body) <==> exists i :: 0 <= i < |body| && Declares(body[i], f)
    decreases |body|
  {
    if body != [] {
      var init := body[..|body| - 1];
      var last := body[|body| - 1];
      FieldsOfMembership(init, f);
      FieldOfDeclares(last);
      if exists i :: 0 <= i < |body| && Declares(body[i], f) {
        var i :| 0 <= i < |body| && Declares(body[i], f);
        if i < |body| - 1 {
          assert init[i] == body[i];
        }
      }
      if exists i :: 0 <= i < |init| && Declares(init[i], f) {
        var i :| 0 <= i < |init| && Declares(init[i], f);
        assert body[i] == init[i];
      }
    }
  }

  /** The field of statement `i` sits right after the fields of the statements before it,
      so a field declared earlier in the body always comes earlier in the list. */
  lemma FieldPosition(body: seq<Node>, i: nat)
    requires i < |body| && FieldOf(body[i]) != []
    ensures |FieldsOf(body[..i])| < |FieldsOf(body)|
    ensures FieldsOf(body)[|FieldsOf(body[..i])|] == FieldOf(body[i])[0]
    ensures forall j :: i < j <= |body| ==> |FieldsOf(body[..i])| < |FieldsOf(body[..j])|
  {
    assert body == body[..i] + [body[i]] + body[i + 1..];
    FieldsOfAppend(body[..i] + [body[i]], body[i + 1..]);
    FieldsOfAppend(body[..i], [body[i]]);
    assert FieldsOf([body[i]]) == FieldOf(body[i]) by {
      assert [body[i]][..0] == [];
    }
    forall j | i < j <= |body| ensures |FieldsOf(body[..i])| < |FieldsOf(body[..j])| {
      FieldPrefixGrows(body, i, j);
    }
  }

  lemma FieldPrefixGrows(body: seq<Node>, i: nat, j: nat)
    requires i < j <= |body| && FieldOf(body[i]) != []
    ensures |FieldsOf(body[..i])| < |FieldsOf(body[..j])|
  {
    assert body[..j] == body[..i] + [body[i]] + body[i + 1..j];
    FieldsOfAppend(body[..i] + [body[i]], body[i + 1..j]);
    FieldsOfAppend(body[..i], [body[i]]);
    assert FieldsOf([body[i]]) == FieldOf(body[i]) by {
      assert [body[i]][..0] == [];
    }
  }
}
