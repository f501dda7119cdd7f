/** The part of Python's abstract syntax tree that the checker looks at.
    Every node type other than those named here is `Other`, whose children
    are listed in the order `ast.iter_child_nodes` yields them; that is all
    `generic_visit` needs of it. */
module Ast {
  import opened Text

  /** One name of `from M import name [as asname]`. */
  datatype Alias = Alias(name: string, asname: Option<string>)

  /** A keyword argument `arg=value`; `arg` is `None` for `**value`. */
  datatype Keyword = Keyword(arg: Option<string>, value: Node)

  datatype Node =
    | Name(id: string)
    | Attribute(value: Node, attr: string)
    | Subscript(value: Node, slice: Node)
    | Call(func: Node, args: seq<Node>, keywords: seq<Keyword>, lineno: int, colOffset: int)
      /** `decorators` also holds the type parameters, which Python visits after them. */
    | ClassDef(name: string, bases: seq<Node>, classKeywords: seq<Keyword>, body: seq<Node>, decorators: seq<Node>)
    | AnnAssign(target: Node, annotation: Node, initializer: Option<Node>)
      /** `moduleName` is `None` for `from . import x`; `level` counts the leading dots. */
    | ImportFrom(moduleName: Option<string>, names: seq<Alias>, level: nat)
    | Other(children: seq<Node>)

  // Sizes, used only as termination measures for the visitors.

  function Size(n: Node): (r: nat)
    ensures r >= 1
    decreases n
  {
    match n
    case Name(_) => 1
    case Attribute(v, _) => 1 + Size(v)
    case Subscript(v, sl) => 1 + Size(v) + Size(sl)
    case Call(f, args, kws, _, _) => 1 + Size(f) + SizeSeq(args) + SizeKeywords(kws)
    case ClassDef(_, bases, kws, body, decs) =>
      1 + SizeSeq(bases) + SizeKeywords(kws) + SizeSeq(body) + SizeSeq(decs)
    case AnnAssign(t, a, v) => 1 + Size(t) + Size(a) + (if v.Some? then Size(v.value) else 0)
    case ImportFrom(_, _, _) => 1
    case Other(cs) => 1 + SizeSeq(cs)
  }

  function SizeSeq(ns: seq<Node>): nat
    decreases ns
  {
    if ns == [] then 0 else SizeSeq(ns[..|ns| - 1]) + Size(ns[|ns| - 1])
  }

  function SizeKeywords(ks: seq<Keyword>): nat
    decreases ks
  {
    if ks == [] then 0 else SizeKeywords(ks[..|ks| - 1]) + SizeKeyword(ks[|ks| - 1])
  }

  function SizeKeyword(k: Keyword): nat
    decreases k
  {
    1 + Size(k.value)
  }

  lemma {:induction false} SizeSeqElement(ns: seq<Node>, i: nat)
    requires i < |ns|
    ensures Size(ns[i]) <= SizeSeq(ns)
    decreases |ns|
  {
    if i < |ns| - 1 {
      SizeSeqElement(ns[..|ns| - 1], i);
    }
  }

  lemma {:induction false} SizeKeywordsElement(ks: seq<Keyword>, i: nat)
    requires i < |ks|
    ensures Size(ks[i].value) <= SizeKeywords(ks)
    decreases |ks|
  {
    if i < |ks| - 1 {
      SizeKeywordsElement(ks[..|ks| - 1], i);
    }
  }
}
