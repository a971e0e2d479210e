/**
  Source inspection: the searches the analyser runs over a module's parse tree
  to find its `define` call, the CommonJS-style `require('x')` calls in a
  factory body, and the dependency list of a `define` call.

  The parse tree is what the JavaScript parser produces, cut down to the node
  kinds the searches distinguish.  Children are listed in the order the parser
  enumerates a node's properties, which is the order the searches visit them.
 */
module Inspector {
  import opened Collections

  /**
    A parse-tree node.  `start` is the node's start offset (`range[0]`).
    A `Literal` carries its value when that value is a string and `None` for
    any other literal (number, boolean, null, regular expression).  `Other`
    stands for every remaining node kind, with its parser type name.
   */
  datatype Node =
    | Call(callee: Node, args: seq<Node>, start: nat)
    | Identifier(name: string, start: nat)
    | Literal(value: Option<string>, start: nat)
    | ArrayExpr(elements: seq<Node>, start: nat)
    | FunctionExpr(params: seq<Node>, body: Node, start: nat)
    | Conditional(test: Node, consequent: Node, alternate: Node, start: nat)
    | Other(kind: string, children: seq<Node>, start: nat)

  /** The parser's `type` property of a node. */
  function TypeName(n: Node): string {
    match n
    case Call(_, _, _) => "CallExpression"
    case Identifier(_, _) => "Identifier"
    case Literal(_, _) => "Literal"
    case ArrayExpr(_, _) => "ArrayExpression"
    case FunctionExpr(_, _, _) => "FunctionExpression"
    case Conditional(_, _, _, _) => "ConditionalExpression"
    case Other(kind, _, _) => kind
  }

  /** The parser's type names are capitalised; `Other` nodes carry one of its remaining names. */
  predicate WellTyped(n: Node) {
    match n
    case Call(callee, args, _) => WellTyped(callee) && WellTypedList(args)
    case Identifier(_, _) => true
    case Literal(_, _) => true
    case ArrayExpr(es, _) => WellTypedList(es)
    case FunctionExpr(ps, body, _) => WellTypedList(ps) && WellTyped(body)
    case Conditional(t, c, a, _) => WellTyped(t) && WellTyped(c) && WellTyped(a)
    case Other(kind, cs, _) => |kind| > 0 && 'A' <= kind[0] <= 'Z' && WellTypedList(cs)
  }

  predicate WellTypedList(ns: seq<Node>)
    decreases ns
  {
    if |ns| == 0 then true else WellTyped(ns[0]) && WellTypedList(ns[1..])
  }

  predicate IsDefineIdentifier(n: Node) {
    n.Identifier? && n.name == "define"
  }

  /** A callee that makes a call a `define` call: `define`, or `c ? define : x` / `c ? x : define`. */
  predicate IsDefineCallee(callee: Node) {
    IsDefineIdentifier(callee) ||
    (callee.Conditional? && (IsDefineIdentifier(callee.consequent) || IsDefineIdentifier(callee.alternate)))
  }

  predicate IsDefineCall(n: Node) {
    n.Call? && IsDefineCallee(n.callee)
  }

  /** A call whose callee is the identifier `require`. */
  predicate IsRequireCall(n: Node) {
    n.Call? && n.callee.Identifier? && n.callee.name == "require"
  }

  function Or<T>(a: Option<T>, b: Option<T>): Option<T> {
    if a.Some? then a else b
  }

  // ---------------------------------------------------------------------------
  // Traversal order
  // ---------------------------------------------------------------------------

  /** Every node of the tree, each before its children, children in property order. */
  function Preorder(n: Node): (r: seq<Node>)
    ensures |r| > 0 && r[0] == n
    decreases n
  {
    [n] +
    match n
    case Call(callee, args, _) => Preorder(callee) + PreorderList(args)
    case Identifier(_, _) => []
    case Literal(_, _) => []
    case ArrayExpr(es, _) => PreorderList(es)
    case FunctionExpr(ps, body, _) => PreorderList(ps) + Preorder(body)
    case Conditional(t, c, a, _) => Preorder(t) + Preorder(c) + Preorder(a)
    case Other(_, cs, _) => PreorderList(cs)
  }

  function PreorderList(ns: seq<Node>): seq<Node>
    decreases ns
  {
    if |ns| == 0 then [] else Preorder(ns[0]) + PreorderList(ns[1..])
  }

  // ---------------------------------------------------------------------------
  // findDefine
  // ---------------------------------------------------------------------------

  /**
    `findDefine`: the arguments of the first `define` call found, checking a
    call node before searching its callee and arguments.  The source wraps the
    arguments with the callee name, which is always "define".
   */
  function FindDefine(n: Node): Option<seq<Node>>
    decreases n
  {
    match n
    case Call(callee, args, _) =>
      if IsDefineCallee(callee) then Some(args) else Or(FindDefine(callee), FindInList(args))
    case Identifier(_, _) => None
    case Literal(_, _) => None
    case ArrayExpr(es, _) => FindInList(es)
    case FunctionExpr(ps, body, _) => Or(FindInList(ps), FindDefine(body))
    case Conditional(t, c, a, _) => Or(FindDefine(t), Or(FindDefine(c), FindDefine(a)))
    case Other(_, cs, _) => FindInList(cs)
  }

  function FindInList(ns: seq<Node>): Option<seq<Node>>
    decreases ns
  {
    if |ns| == 0 then None else Or(FindDefine(ns[0]), FindInList(ns[1..]))
  }

  /** The arguments of the first `define` call of a node list. */
  function FirstDefine(ns: seq<Node>): (r: Option<seq<Node>>)
    ensures r.None? <==> forall i :: 0 <= i < |ns| ==> !IsDefineCall(ns[i])
  {
    if |ns| == 0 then None
    else if IsDefineCall(ns[0]) then Some(ns[0].args)
    else
      assert forall i :: 1 <= i < |ns| ==> ns[i] == ns[1..][i - 1];
      FirstDefine(ns[1..])
  }

  /** What is found is the arguments of a `define` call with no `define` call before it. */
  lemma {:induction false} FirstDefineIsFirst(ns: seq<Node>)
    ensures FirstDefine(ns).Some? ==>
      exists i :: 0 <= i < |ns| && IsDefineCall(ns[i]) && FirstDefine(ns).value == ns[i].args &&
        (forall j :: 0 <= j < i ==> !IsDefineCall(ns[j]))
  {
    if |ns| > 0 && !IsDefineCall(ns[0]) && FirstDefine(ns).Some? {
      FirstDefineIsFirst(ns[1..]);
      var i :| 0 <= i < |ns[1..]| && IsDefineCall(ns[1..][i]) && FirstDefine(ns[1..]).value == ns[1..][i].args &&
        (forall j :: 0 <= j < i ==> !IsDefineCall(ns[1..][j]));
      assert forall j :: 1 <= j < i + 1 ==> ns[j] == ns[1..][j - 1];
      assert IsDefineCall(ns[i + 1]) && forall j :: 0 <= j < i + 1 ==> !IsDefineCall(ns[j]);
    }
  }

  lemma {:induction false} FirstDefineConcat(a: seq<Node>, b: seq<Node>)
    ensures FirstDefine(a + b) == Or(FirstDefine(a), FirstDefine(b))
    decreases |a|
  {
    if |a| > 0 {
      assert (a + b)[0] == a[0] && (a + b)[1..] == a[1..] + b;
      FirstDefineConcat(a[1..], b);
    } else {
      assert a + b == b;
    }
  }

  /** `findDefine` returns the first `define` call in traversal order, if there is one. */
  lemma {:induction false} FindDefineFirst(n: Node)
    ensures FindDefine(n) == FirstDefine(Preorder(n))
    decreases n, 1
  {
    match n
    case Call(callee, args, _) =>
      FindDefineFirst(callee);
      FindInListFirst(args);
      FirstDefineConcat(Preorder(callee), PreorderList(args));
      FirstDefineConcat([n], Preorder(callee) + PreorderList(args));
    case Identifier(_, _) =>
    case Literal(_, _) =>
    case ArrayExpr(es, _) =>
      FindInListFirst(es);
      FirstDefineConcat([n], PreorderList(es));
    case FunctionExpr(ps, body, _) =>
      FindInListFirst(ps);
      FindDefineFirst(body);
      FirstDefineConcat(PreorderList(ps), Preorder(body));
      FirstDefineConcat([n], PreorderList(ps) + Preorder(body));
    case Conditional(t, c, a, _) =>
      FindDefineFirst(t);
      FindDefineFirst(c);
      FindDefineFirst(a);
      FirstDefineConcat(Preorder(t) + Preorder(c), Preorder(a));
      FirstDefineConcat(Preorder(t), Preorder(c));
      FirstDefineConcat([n], Preorder(t) + Preorder(c) + Preorder(a));
    case Other(_, cs, _) =>
      FindInListFirst(cs);
      FirstDefineConcat([n], PreorderList(cs));
  }

  lemma {:induction false} FindInListFirst(ns: seq<Node>)
    ensures FindInList(ns) == FirstDefine(PreorderList(ns))
    decreases ns, 0
  {
    if |ns| > 0 {
      FindDefineFirst(ns[0]);
      FindInListFirst(ns[1..]);
      FirstDefineConcat(Preorder(ns[0]), PreorderList(ns[1..]));
    }
  }

  /** A module without any `define` call has none found, and the root call is found first. */
  lemma FindDefineNone(n: Node)
    ensures FindDefine(n).None? <==> forall i :: 0 <= i < |Preorder(n)| ==> !IsDefineCall(Preorder(n)[i])
    ensures IsDefineCall(n) ==> FindDefine(n) == Some(n.args)
  {
    FindDefineFirst(n);
  }

  // ---------------------------------------------------------------------------
  // scanForRequires
  // ---------------------------------------------------------------------------

  /**
    What one node contributes to the `requires` accumulator: the value of a
    literal first argument of a `require` call.  `None` when the node is a
    `require()` call without arguments, where reading the first argument's type
    throws a TypeError.
   */
  function RequireOf(n: Node): Option<seq<Option<string>>> {
    if IsRequireCall(n) then
      if |n.args| == 0 then None
      else if n.args[0].Literal? then Some([n.args[0].value])
      else Some([])
    else Some([])
  }

  /** Concatenation of two scans; a TypeError in either is a TypeError. */
  function Cat<T>(a: Option<seq<T>>, b: Option<seq<T>>): Option<seq<T>> {
    if a.Some? && b.Some? then Some(a.value + b.value) else None
  }

  /**
    `scanForRequires`: the `require` literals of a tree in traversal order,
    a call node's own `require` checked before its callee and arguments;
    `None` when the scan throws.
   */
  function ScanForRequires(n: Node): Option<seq<Option<string>>>
    decreases n
  {
    match n
    case Call(callee, args, _) => Cat(RequireOf(n), Cat(ScanForRequires(callee), ScanList(args)))
    case Identifier(_, _) => Some([])
    case Literal(_, _) => Some([])
    case ArrayExpr(es, _) => ScanList(es)
    case FunctionExpr(ps, body, _) => Cat(ScanList(ps), ScanForRequires(body))
    case Conditional(t, c, a, _) => Cat(ScanForRequires(t), Cat(ScanForRequires(c), ScanForRequires(a)))
    case Other(_, cs, _) => ScanList(cs)
  }

  function ScanList(ns: seq<Node>): Option<seq<Option<string>>>
    decreases ns
  {
    if |ns| == 0 then Some([]) else Cat(ScanForRequires(ns[0]), ScanList(ns[1..]))
  }

  /** The `require` literals of a node list, in order; `None` if any of them is `require()`. */
  function RequiresIn(ns: seq<Node>): (r: Option<seq<Option<string>>>)
    ensures r.None? <==> exists i :: 0 <= i < |ns| && IsRequireCall(ns[i]) && |ns[i].args| == 0
  {
    if |ns| == 0 then Some([])
    else
      assert forall i :: 1 <= i < |ns| ==> ns[i] == ns[1..][i - 1];
      Cat(RequireOf(ns[0]), RequiresIn(ns[1..]))
  }

  lemma CatAssoc<T>(a: Option<seq<T>>, b: Option<seq<T>>, c: Option<seq<T>>)
    ensures Cat(Cat(a, b), c) == Cat(a, Cat(b, c))
  {
    if a.Some? && b.Some? && c.Some? {
      assert (a.value + b.value) + c.value == a.value + (b.value + c.value);
    }
  }

  lemma RequiresInSingle(n: Node)
    ensures RequiresIn([n]) == RequireOf(n)
  {
    assert [n][1..] == [];
    if RequireOf(n).Some? {
      assert RequireOf(n).value + [] == RequireOf(n).value;
    }
  }

  lemma {:induction false} RequiresInConcat(a: seq<Node>, b: seq<Node>)
    ensures RequiresIn(a + b) == Cat(RequiresIn(a), RequiresIn(b))
    decreases |a|
  {
    if |a| > 0 {
      assert (a + b)[0] == a[0] && (a + b)[1..] == a[1..] + b;
      RequiresInConcat(a[1..], b);
      CatAssoc(RequireOf(a[0]), RequiresIn(a[1..]), RequiresIn(b));
    } else {
      assert a + b == b;
      if RequiresIn(b).Some? {
        assert [] + RequiresIn(b).value == RequiresIn(b).value;
      }
    }
  }

  /**
    `scanForRequires` collects the `require` literals in traversal order, and
    throws exactly when the tree holds a `require()` call without arguments.
   */
  lemma {:induction false} ScanPreorder(n: Node)
    ensures ScanForRequires(n) == RequiresIn(Preorder(n))
    decreases n, 1
  {
    RequiresInSingle(n);
    match n
    case Call(callee, args, _) =>
      ScanPreorder(callee);
      ScanListPreorder(args);
      RequiresInConcat(Preorder(callee), PreorderList(args));
      RequiresInConcat([n], Preorder(callee) + PreorderList(args));
    case Identifier(_, _) =>
      assert Preorder(n) == [n];
    case Literal(_, _) =>
      assert Preorder(n) == [n];
    case ArrayExpr(es, _) =>
      ScanListPreorder(es);
      RequiresInConcat([n], PreorderList(es));
      CatUnit(RequiresIn(PreorderList(es)));
    case FunctionExpr(ps, body, _) =>
      ScanListPreorder(ps);
      ScanPreorder(body);
      RequiresInConcat(PreorderList(ps), Preorder(body));
      RequiresInConcat([n], PreorderList(ps) + Preorder(body));
      CatUnit(RequiresIn(PreorderList(ps) + Preorder(body)));
    case Conditional(t, c, a, _) =>
      ScanPreorder(t);
      ScanPreorder(c);
      ScanPreorder(a);
      RequiresInConcat(Preorder(t) + Preorder(c), Preorder(a));
      RequiresInConcat(Preorder(t), Preorder(c));
      RequiresInConcat([n], Preorder(t) + Preorder(c) + Preorder(a));
      CatAssoc(RequiresIn(Preorder(t)), RequiresIn(Preorder(c)), RequiresIn(Preorder(a)));
      CatUnit(RequiresIn(Preorder(t) + Preorder(c) + Preorder(a)));
    case Other(_, cs, _) =>
      ScanListPreorder(cs);
      RequiresInConcat([n], PreorderList(cs));
      CatUnit(RequiresIn(PreorderList(cs)));
  }

  /** A node that is not a call contributes nothing of its own. */
  lemma CatUnit<T>(b: Option<seq<T>>)
    ensures Cat(Some([]), b) == b
  {
    if b.Some? {
      assert [] + b.value == b.value;
    }
  }

  lemma {:induction false} ScanListPreorder(ns: seq<Node>)
    ensures ScanList(ns) == RequiresIn(PreorderList(ns))
    decreases ns, 0
  {
    if |ns| > 0 {
      ScanPreorder(ns[0]);
      ScanListPreorder(ns[1..]);
      RequiresInConcat(Preorder(ns[0]), PreorderList(ns[1..]));
    }
  }

  // ---------------------------------------------------------------------------
  // getDependencies
  // ---------------------------------------------------------------------------

  /** A dependency entry: the element's value (`None` when it is not a string) and its parser type. */
  datatype Dep = Dep(value: Option<string>, typeName: string)

  /** The result of `getDependencies`; `nameIndex` is present for an anonymous `define`. */
  datatype DepInfo = DepInfo(deps: seq<Dep>, nameIndex: Option<nat>)

  /** The `value` property of an array element: only a literal has one. */
  function ValueOf(n: Node): Option<string> {
    if n.Literal? then n.value else None
  }

  function ElementDeps(es: seq<Node>): (r: seq<Dep>)
    ensures |r| == |es|
    ensures forall k :: 0 <= k < |es| ==> r[k] == Dep(ValueOf(es[k]), TypeName(es[k]))
  {
    seq(|es|, k requires 0 <= k < |es| => Dep(ValueOf(es[k]), TypeName(es[k])))
  }

  function RequireDeps(vs: seq<Option<string>>): (r: seq<Dep>)
    ensures |r| == |vs|
    ensures forall k :: 0 <= k < |vs| ==> r[k] == Dep(vs[k], "Literal")
  {
    seq(|vs|, k requires 0 <= k < |vs| => Dep(vs[k], "Literal"))
  }

  /** The dependencies one argument of `define` contributes; `None` when scanning it throws. */
  function ArgDeps(arg: Node, scanCJSRequires: bool): Option<seq<Dep>> {
    if arg.ArrayExpr? then Some(ElementDeps(arg.elements))
    else if arg.FunctionExpr? && scanCJSRequires then
      match ScanForRequires(arg.body)
      case Some(vs) => Some(RequireDeps(vs))
      case None => None
    else Some([])
  }

  /** The dependencies of the arguments, in argument order. */
  function DepsOf(args: seq<Node>, scanCJSRequires: bool): Option<seq<Dep>>
    decreases |args|
  {
    if |args| == 0 then Some([])
    else Cat(DepsOf(args[..|args| - 1], scanCJSRequires), ArgDeps(args[|args| - 1], scanCJSRequires))
  }

  /** `range[0]` of the first argument when it is not a literal, i.e. when the module id is missing. */
  function NameIndexOf(args: seq<Node>): Option<nat> {
    if |args| > 0 && !args[0].Literal? then Some(args[0].start) else None
  }

  /** `getDependencies`: the loop over the `define` call's arguments; `None` when it throws. */
  method GetDependencies(args: seq<Node>, scanCJSRequires: bool) returns (r: Option<DepInfo>)
    ensures r.None? <==> DepsOf(args, scanCJSRequires).None?
    ensures r.Some? ==> r.value.deps == DepsOf(args, scanCJSRequires).value
    ensures r.Some? ==> r.value.nameIndex == NameIndexOf(args)
  {
    var dependencies: seq<Dep> := [];
    var nameIndex: Option<nat> := None;
    var j := 0;
    while j < |args|
      invariant 0 <= j <= |args|
      invariant DepsOf(args[..j], scanCJSRequires) == Some(dependencies)
      invariant nameIndex == if j > 0 then NameIndexOf(args) else None
    {
      assert args[..j + 1][..j] == args[..j] && args[..j + 1][j] == args[j];
      assert DepsOf(args[..j + 1], scanCJSRequires) == Cat(DepsOf(args[..j], scanCJSRequires), ArgDeps(args[j], scanCJSRequires));
      if j == 0 && !args[j].Literal? {
        nameIndex := Some(args[j].start);
      }
      var arg := args[j];
      ghost var before := dependencies;
      if arg.ArrayExpr? {
        var elements := arg.elements;
        var k := 0;
        while k < |elements|
          invariant 0 <= k <= |elements|
          invariant dependencies == before + ElementDeps(elements)[..k]
        {
          assert ElementDeps(elements)[..k + 1] == ElementDeps(elements)[..k] + [ElementDeps(elements)[k]];
          dependencies := dependencies + [Dep(ValueOf(elements[k]), TypeName(elements[k]))];
          k := k + 1;
        }
        assert ElementDeps(elements)[..k] == ElementDeps(elements);
      } else if arg.FunctionExpr? && scanCJSRequires {
        var found := ScanForRequires(arg.body);
        if found.None? {
          assert DepsOf(args[..j + 1], scanCJSRequires).None?;
          DepsOfThrows(args, j + 1, scanCJSRequires);
          return None;
        }
        dependencies := dependencies + RequireDeps(found.value);
      } else {
        assert ArgDeps(arg, scanCJSRequires) == Some([]);
        assert before + [] == before;
      }
      j := j + 1;
    }
    assert args[..j] == args;
    r := Some(DepInfo(dependencies, nameIndex));
  }

  /** Once an argument throws, the whole list does. */
  lemma {:induction false} DepsOfThrows(args: seq<Node>, j: nat, scanCJSRequires: bool)
    requires j <= |args| && DepsOf(args[..j], scanCJSRequires).None?
    ensures DepsOf(args, scanCJSRequires).None?
    decreases |args| - j
  {
    if j < |args| {
      assert args[..j + 1][..j] == args[..j];
      DepsOfThrows(args, j + 1, scanCJSRequires);
    } else {
      assert args[..j] == args;
    }
  }

  /** The array elements of the arguments, in order. */
  function ArrayDeps(args: seq<Node>): seq<Dep>
    decreases |args|
  {
    if |args| == 0 then []
    else ArrayDeps(args[..|args| - 1]) + (if args[|args| - 1].ArrayExpr? then ElementDeps(args[|args| - 1].elements) else [])
  }

  /** Without CommonJS scanning the dependencies are exactly the array elements, and nothing throws. */
  lemma {:induction false} DepsWithoutScan(args: seq<Node>)
    ensures DepsOf(args, false) == Some(ArrayDeps(args))
    decreases |args|
  {
    if |args| > 0 {
      DepsWithoutScan(args[..|args| - 1]);
    }
  }

  /** With scanning, the `require` literals of a factory body follow the elements of the arrays before it. */
  lemma DepsWithScan(arr: Node, factory: Node)
    requires arr.ArrayExpr? && factory.FunctionExpr?
    requires ScanForRequires(factory.body).Some?
    ensures DepsOf([arr, factory], true) ==
      Some(ElementDeps(arr.elements) + RequireDeps(ScanForRequires(factory.body).value))
    ensures DepsOf([arr, factory], false) == Some(ElementDeps(arr.elements))
  {
    var empty: seq<Node> := [];
    assert [arr, factory][..1] == [arr] && [arr, factory][1] == factory;
    assert [arr][..0] == empty && [arr][0] == arr;
    forall scan: bool ensures DepsOf([arr], scan) == Some(ElementDeps(arr.elements)) {
      assert DepsOf(empty, scan) == Some([]);
      assert [] + ElementDeps(arr.elements) == ElementDeps(arr.elements);
    }
    assert ArgDeps(factory, true) == Some(RequireDeps(ScanForRequires(factory.body).value));
    assert ArgDeps(factory, false) == Some([]);
    assert ElementDeps(arr.elements) + [] == ElementDeps(arr.elements);
  }

  /** A parser type name is never the lower-case "literal". */
  lemma TypeNameNotLiteral(n: Node)
    requires WellTyped(n)
    ensures TypeName(n) != "literal"
  {
    if n.Other? {
      assert "literal"[0] == 'l';
    }
  }

  /** Every dependency type is a parser type name, so none is the lower-case "literal". */
  lemma {:induction false} DepTypesNeverLiteral(args: seq<Node>, scanCJSRequires: bool)
    requires WellTypedList(args)
    requires DepsOf(args, scanCJSRequires).Some?
    ensures forall k :: 0 <= k < |DepsOf(args, scanCJSRequires).value| ==> DepsOf(args, scanCJSRequires).value[k].typeName != "literal"
    decreases |args|
  {
    if |args| > 0 {
      var init := args[..|args| - 1];
      var last := args[|args| - 1];
      WellTypedListSplit(args);
      DepTypesNeverLiteral(init, scanCJSRequires);
      var before := DepsOf(init, scanCJSRequires).value;
      var added := ArgDeps(last, scanCJSRequires).value;
      assert DepsOf(args, scanCJSRequires).value == before + added;
      forall k | 0 <= k < |added| ensures added[k].typeName != "literal" {
        if last.ArrayExpr? {
          WellTypedListAt(last.elements, k);
          TypeNameNotLiteral(last.elements[k]);
        }
      }
      forall k | 0 <= k < |before + added| ensures (before + added)[k].typeName != "literal" {
        if k >= |before| {
          assert (before + added)[k] == added[k - |before|];
        }
      }
    }
  }

  lemma {:induction false} WellTypedListAt(ns: seq<Node>, k: nat)
    requires WellTypedList(ns) && k < |ns|
    ensures WellTyped(ns[k])
    decreases k
  {
    if k > 0 {
      WellTypedListAt(ns[1..], k - 1);
    }
  }

  lemma {:induction false} WellTypedListSplit(ns: seq<Node>)
    requires WellTypedList(ns) && |ns| > 0
    ensures WellTypedList(ns[..|ns| - 1]) && WellTyped(ns[|ns| - 1])
    decreases |ns|
  {
    WellTypedListAt(ns, |ns| - 1);
    if |ns| > 1 {
      WellTypedListSplit(ns[1..]);
      assert ns[1..][..|ns| - 2] == ns[..|ns| - 1][1..];
    }
  }

  /** `isExcluded`: a linear search for `item`. */
  method IsExcluded(exclude: seq<string>, item: string) returns (r: bool)
    ensures r <==> item in exclude
  {
    var i := 0;
    while i < |exclude|
      invariant 0 <= i <= |exclude|
      invariant item !in exclude[..i]
    {
      if item == exclude[i] {
        return true;
      }
      assert exclude[..i + 1] == exclude[..i] + [exclude[i]];
      i := i + 1;
    }
    assert exclude[..i] == exclude;
    return false;
  }
}
