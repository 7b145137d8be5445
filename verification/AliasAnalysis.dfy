/**
 The compiler's alias analysis: whether the location of one expression lies
 within that of another, answered `yes`, `no` or `maybe` from their access paths.
 */
module AliasAnalysis {
  import opened Results

  /** An index: a literal, or an expression known at run time only. */
  datatype Index = Literal(val: int) | Runtime(expr: nat)

  /** Expressions, named after the node kinds of the syntax tree. */
  datatype Node =
    | Sym(sym: nat)
    | DotExpr(base: Node, field: nat)
    | BracketExpr(base: Node, index: Index)
    | DerefExpr(base: Node)
    | HiddenDeref(base: Node)
    // looked through at their first son
    | CheckedFieldExpr(base: Node) | Addr(base: Node) | HiddenAddr(base: Node)
    | ObjDownConv(base: Node) | ObjUpConv(base: Node)
    // looked through at their second son
    | HiddenStdConv(base: Node) | HiddenSubConv(base: Node)
    | Other

  datatype AliasKind = yes | no | maybe

  predicate Transparent(n: Node) {
    || n.CheckedFieldExpr? || n.Addr? || n.HiddenAddr?
    || n.ObjDownConv? || n.ObjUpConv? || n.HiddenStdConv? || n.HiddenSubConv?
  }

  predicate Important(n: Node) { n.DotExpr? || n.BracketExpr? || n.DerefExpr? || n.HiddenDeref? }

  // ----- access paths

  /** One element of a path, from the root on. */
  datatype Item = Root(sym: nat) | Member(field: nat) | At(index: Index) | Deref | Hidden

  function ItemOf(n: Node): Item
    requires Important(n) || n.Sym?
  {
    match n
    case Sym(s) => Root(s)
    case DotExpr(_, f) => Member(f)
    case BracketExpr(_, i) => At(i)
    case DerefExpr(_) => Deref
    case HiddenDeref(_) => Hidden
  }

  /** The access path of an expression; none if it is not one. */
  function Path(n: Node): Option<seq<Item>> {
    if n.Sym? then Some([ItemOf(n)])
    else if Transparent(n) then Path(n.base)
    else if Important(n) then
      match Path(n.base)
      case None => None
      case Some(p) => Some(p + [ItemOf(n)])
    else None
  }

  // ----- the answer

  /** How two path elements at the same depth compare. */
  function Compare(o: Item, f: Item): AliasKind {
    match (o, f)
    case (Root(a), Root(b)) => if a == b then yes else no
    case (Member(a), Member(b)) => if a == b then yes else no
    case (At(Literal(a)), At(Literal(b))) => if a == b then yes else no
    case (At(_), At(_)) => maybe
    case (Deref, Deref) => yes
    case (Hidden, Hidden) => yes
    case (_, _) => no
  }

  predicate Diverges(o: seq<Item>, f: seq<Item>) {
    |f| < |o| || exists i | 0 <= i < |o| :: Compare(o[i], f[i]) == no
  }

  predicate Uncertain(o: seq<Item>, f: seq<Item>) {
    |o| <= |f| && exists i | 0 <= i < |o| :: Compare(o[i], f[i]) == maybe
  }

  function Verdict(o: seq<Item>, f: seq<Item>): AliasKind {
    if Diverges(o, f) then no else if Uncertain(o, f) then maybe else yes
  }

  function Answer(obj: Node, field: Node): AliasKind {
    var o, f := Path(obj), Path(field);
    if o.None? || f.None? then no else Verdict(o.value, f.value)
  }

  /** `collectImportantNodes`: the nodes of the path, outermost first. */
  method CollectImportantNodes(start: Node) returns (r: Option<seq<Node>>)
    ensures r.None? <==> Path(start).None?
    ensures r.Some? ==> Collected(r.value, Path(start).value)
  {
    var result: seq<Node> := [];
    var n := start;
    ghost var tail: seq<Item> := [];
    assert Path(n).Some? ==> Path(n).value + [] == Path(n).value;
    while true
      invariant |tail| == |result|
      invariant forall i | 0 <= i < |result| :: Important(result[i]) && tail[|tail| - 1 - i] == ItemOf(result[i])
      invariant Path(start) == if Path(n).Some? then Some(Path(n).value + tail) else None
      decreases n
    {
      if Transparent(n) {
        n := n.base;
      } else if Important(n) {
        result := result + [n];
        assert Path(n.base).Some? ==>
            Path(n.base).value + [ItemOf(n)] + tail == Path(n.base).value + ([ItemOf(n)] + tail);
        tail := [ItemOf(n)] + tail;
        n := n.base;
      } else if n.Sym? {
        result := result + [n];
        assert Path(start).value == [ItemOf(n)] + tail;
        return Some(result);
      } else {
        return None;
      }
    }
  }

  predicate Collected(nodes: seq<Node>, path: seq<Item>) {
    && |nodes| == |path| > 0
    && forall i | 0 <= i < |nodes| ::
         (Important(nodes[i]) || nodes[i].Sym?) && path[|path| - 1 - i] == ItemOf(nodes[i])
  }

  /** `aliases` */
  method Aliases(obj: Node, field: Node) returns (result: AliasKind)
    ensures result == Answer(obj, field)
    ensures result == yes ==> forall val: Valuation :: Contains(obj, field, val, val)
    ensures result == no ==> forall val: Valuation :: !Contains(obj, field, val, val)
  {
    hide Path, Verdict, Contains;
    forall val: Valuation
      ensures Answer(obj, field) == yes ==> Contains(obj, field, val, val)
      ensures Answer(obj, field) == no ==> !Contains(obj, field, val, val)
    {
      Sound(obj, field, val);
    }
    var objNodes := CollectImportantNodes(obj);
    if objNodes.None? {
      return no;
    }
    var fieldNodes := CollectImportantNodes(field);
    if fieldNodes.None? {
      return no;
    }
    result := CompareAll(objNodes.value, fieldNodes.value, Path(obj).value, Path(field).value);
  }

  /** The comparing part of `aliases`; the nodes are taken from the root on, the last ones first. */
  method CompareAll(os: seq<Node>, fs: seq<Node>, ghost o: seq<Item>, ghost f: seq<Item>) returns (result: AliasKind)
    requires Collected(os, o) && Collected(fs, f)
    ensures result == Verdict(o, f)
  {
    hide Compare, ItemOf;
    if |fs| < |os| {
      return no;
    }
    result := yes;
    for i := 1 to |os| + 1
      invariant forall k | 0 <= k < i - 1 :: Compare(o[k], f[k]) != no
      invariant result == yes ==> forall k | 0 <= k < i - 1 :: Compare(o[k], f[k]) == yes
      invariant result != yes ==> result == maybe && Uncertain(o, f)
    {
      var currFieldPath, currObjPath := fs[|fs| - i], os[|os| - i];
      var step := CompareNodes(currFieldPath, currObjPath);
      assert step == Compare(o[i - 1], f[i - 1]);
      if step == no {
        return no;
      } else if step == maybe {
        result := maybe;
      }
    }
  }

  /** The comparison inside the loop of `aliases`; `yes` lets the loop go on as it was. */
  method CompareNodes(currFieldPath: Node, currObjPath: Node) returns (step: AliasKind)
    requires Important(currFieldPath) || currFieldPath.Sym?
    requires Important(currObjPath) || currObjPath.Sym?
    ensures step == Compare(ItemOf(currObjPath), ItemOf(currFieldPath))
  {
    step := yes;
    match (currFieldPath, currObjPath) {
      case (Sym(a), Sym(b)) =>
        if a != b { return no; }
      case (DotExpr(_, a), DotExpr(_, b)) =>
        if a != b { return no; }
      case (DerefExpr(_), DerefExpr(_)) =>
      case (HiddenDeref(_), HiddenDeref(_)) =>
      case (BracketExpr(_, a), BracketExpr(_, b)) =>
        if a.Literal? && b.Literal? {
          if a.val != b.val { return no; }
        } else {
          step := maybe;
        }
      case (_, _) =>
        return no;
    }
  }

  // ----- what expressions denote

  /** One step on the way to a location, once the indices are known. */
  datatype Step = Variable(sym: nat) | FieldOf(field: nat) | Element(i: int) | PointedTo | HiddenTo

  /** Values of the run-time indices, by the number of steps before them and the expression. */
  type Valuation = (nat, Index) -> int

  /** The node that is left when everything around it is taken off. */
  function Innermost(n: Node): Node {
    if n.Sym? || n.Other? then n else Innermost(n.base)
  }

  /** The location of an expression: a step for each field, element and dereference, and none for the rest. */
  function LocationOf(n: Node, val: Valuation): Option<seq<Step>> {
    match n
    case Sym(s) => Some([Variable(s)])
    case DotExpr(b, f) => Then(LocationOf(b, val), _ => FieldOf(f))
    case BracketExpr(b, i) =>
      Then(LocationOf(b, val), (d: nat) => Element(match i case Literal(v) => v case Runtime(_) => val(d, i)))
    case DerefExpr(b) => Then(LocationOf(b, val), _ => PointedTo)
    case HiddenDeref(b) => Then(LocationOf(b, val), _ => HiddenTo)
    case CheckedFieldExpr(b) => LocationOf(b, val)
    case Addr(b) => LocationOf(b, val)
    case HiddenAddr(b) => LocationOf(b, val)
    case ObjDownConv(b) => LocationOf(b, val)
    case ObjUpConv(b) => LocationOf(b, val)
    case HiddenStdConv(b) => LocationOf(b, val)
    case HiddenSubConv(b) => LocationOf(b, val)
    case Other => None
  }

  /** One more step, which may depend on how many there are before it. */
  function Then(l: Option<seq<Step>>, step: nat -> Step): Option<seq<Step>> {
    match l
    case None => None
    case Some(steps) => Some(steps + [step(|steps|)])
  }

  /** Under these values of the run-time indices, the location of `obj` contains that of `field`. */
  predicate Contains(obj: Node, field: Node, x: Valuation, y: Valuation) {
    var o, f := LocationOf(obj, x), LocationOf(field, y);
    o.Some? && f.Some? && o.value <= f.value
  }

  /** With a value of its own for each run-time index, some values make the one location contain the other. */
  ghost predicate Possible(obj: Node, field: Node) { exists x, y :: Contains(obj, field, x, y) }

  /** And all of them do. */
  ghost predicate Certain(obj: Node, field: Node) { forall x, y :: Contains(obj, field, x, y) }

  predicate HasRuntimeIndex(n: Node) {
    if n.Sym? || n.Other? then false
    else (n.BracketExpr? && n.index.Runtime?) || HasRuntimeIndex(n.base)
  }

  // ----- from paths to locations

  function StepOf(a: Item, d: nat, val: Valuation): Step {
    match a
    case Root(s) => Variable(s)
    case Member(f) => FieldOf(f)
    case At(i) => Element(if i.Literal? then i.val else val(d, i))
    case Deref => PointedTo
    case Hidden => HiddenTo
  }

  function Location(p: seq<Item>, val: Valuation): (l: seq<Step>)
    ensures |l| == |p|
  {
    seq(|p|, i requires 0 <= i < |p| => StepOf(p[i], i, val))
  }

  lemma {:induction false} PathLocates(n: Node, val: Valuation)
    ensures LocationOf(n, val)
         == match Path(n) case None => None case Some(p) => Some(Location(p, val))
    ensures LocationOf(n, val).None? <==> Innermost(n).Other?
  {
    if n.Sym? {
      assert Location([ItemOf(n)], val) == [Variable(n.sym)];
    } else if Transparent(n) {
      PathLocates(n.base, val);
    } else if Important(n) {
      PathLocates(n.base, val);
      if Path(n.base).Some? {
        var p := Path(n.base).value;
        assert Location(p + [ItemOf(n)], val) == Location(p, val) + [StepOf(ItemOf(n), |p|, val)];
      }
    }
  }

  predicate Agree(o: seq<Item>, f: seq<Item>, x: Valuation, y: Valuation) {
    |o| <= |f| && forall i | 0 <= i < |o| :: StepOf(o[i], i, x) == StepOf(f[i], i, y)
  }

  lemma PrefixIff(o: seq<Item>, f: seq<Item>, x: Valuation, y: Valuation)
    ensures Location(o, x) <= Location(f, y) <==> Agree(o, f, x, y)
  {
    var a, b := Location(o, x), Location(f, y);
    if Agree(o, f, x, y) {
      assert a == b[..|a|];
    } else if a <= b {
      forall i | 0 <= i < |o| ensures StepOf(o[i], i, x) == StepOf(f[i], i, y) {
        assert a[i] == b[i];
      }
    }
  }

  lemma ContainsIff(obj: Node, field: Node, x: Valuation, y: Valuation)
    ensures Contains(obj, field, x, y)
       <==> Path(obj).Some? && Path(field).Some? && Agree(Path(obj).value, Path(field).value, x, y)
  {
    hide Path, LocationOf, Location, Innermost, Agree;
    PathLocates(obj, x);
    PathLocates(field, y);
    if Path(obj).Some? && Path(field).Some? {
      PrefixIff(Path(obj).value, Path(field).value, x, y);
    }
  }

  // ----- what the answers mean

  lemma AnswerNeverMaybe(obj: Node, field: Node, x: Valuation, y: Valuation)
    requires Answer(obj, field) != maybe
    ensures Answer(obj, field) == yes <==> Contains(obj, field, x, y)
  {
    hide Path;
    ContainsIff(obj, field, x, y);
    if Path(obj).Some? && Path(field).Some? {
      var o, f := Path(obj).value, Path(field).value;
      forall i | 0 <= i < |o| && i < |f|
        ensures Compare(o[i], f[i]) == yes ==> StepOf(o[i], i, x) == StepOf(f[i], i, y)
        ensures Compare(o[i], f[i]) == no ==> StepOf(o[i], i, x) != StepOf(f[i], i, y)
      {
      }
    }
  }

  /**
     The answers are right whatever the run-time indices are: `yes` means that
     the location of `obj` always contains that of `field`, `no` that it never
     does. An expression without a location is what is built on something else
     than a variable, and it is never reported to alias.
     */
  lemma Sound(obj: Node, field: Node, val: Valuation)
    ensures Answer(obj, field) == yes ==> Contains(obj, field, val, val)
    ensures Answer(obj, field) == no ==> !Contains(obj, field, val, val)
    ensures LocationOf(obj, val).None? <==> Innermost(obj) == Other
    ensures Innermost(obj) == Other || Innermost(field) == Other ==> Answer(obj, field) == no
  {
    hide Contains, Verdict;
    PathLocates(obj, val);
    PathLocates(field, val);
    if Answer(obj, field) != maybe {
      AnswerNeverMaybe(obj, field, val, val);
    }
  }

  /** The three answers are exact as long as each run-time index may have any value of its own. */
  lemma Exact(obj: Node, field: Node)
    ensures Answer(obj, field) == yes <==> Certain(obj, field)
    ensures Answer(obj, field) == no <==> !Possible(obj, field)
    ensures Answer(obj, field) == maybe <==> Possible(obj, field) && !Certain(obj, field)
  {
    hide Contains, Answer;
    if Answer(obj, field) == maybe {
      CanMeet(obj, field);
      CanMiss(obj, field);
    } else {
      forall x, y ensures Contains(obj, field, x, y) <==> Answer(obj, field) == yes {
        AnswerNeverMaybe(obj, field, x, y);
      }
      assert Contains(obj, field, (_, _) => 0, (_, _) => 0) <==> Answer(obj, field) == yes;
    }
  }

  /** Values for the run-time indices of a path that meet the literal ones of `q` at the same depth. */
  function Meeting(q: seq<Item>): Valuation {
    (d: nat, _: Index) => if d < |q| && q[d].At? && q[d].index.Literal? then q[d].index.val else 0
  }

  lemma CanMeet(obj: Node, field: Node)
    requires Answer(obj, field) == maybe
    ensures Possible(obj, field)
  {
    hide Path, Contains;
    var o, f := Path(obj).value, Path(field).value;
    var x, y := Meeting(f), Meeting(o);
    forall i | 0 <= i < |o| ensures StepOf(o[i], i, x) == StepOf(f[i], i, y) {
      assert Compare(o[i], f[i]) != no;
    }
    ContainsIff(obj, field, x, y);
  }

  lemma CanMiss(obj: Node, field: Node)
    requires Answer(obj, field) == maybe
    ensures !Certain(obj, field)
  {
    hide Path, Contains, Compare, StepOf, Answer;
    var k := OpenPlace(obj, field);
    var o, f := Path(obj).value, Path(field).value;
    var x, y := TellApart(o[k], f[k], k);
    ContainsIff(obj, field, x, y);
    assert !Contains(obj, field, x, y);
  }

  lemma OpenPlace(obj: Node, field: Node) returns (k: nat)
    requires Answer(obj, field) == maybe
    ensures Path(obj).Some? && Path(field).Some? && k < |Path(obj).value| <= |Path(field).value|
    ensures Compare(Path(obj).value[k], Path(field).value[k]) == maybe
  {
    hide Path, Compare;
    var o, f := Path(obj).value, Path(field).value;
    k :| k < |o| && Compare(o[k], f[k]) == maybe;
  }

  lemma TellApart(a: Item, b: Item, d: nat) returns (x: Valuation, y: Valuation)
    requires Compare(a, b) == maybe
    ensures StepOf(a, d, x) != StepOf(b, d, y)
  {
    var vb := if b.index.Literal? then b.index.val else 0;
    var va := if a.index.Literal? then a.index.val else vb + 1;
    x, y := (_: nat, _: Index) => va, (_: nat, _: Index) => if a.index.Literal? then va + 1 else vb;
  }

  // ----- the answers compose

  lemma CompareComposes(a: Item, b: Item, c: Item)
    ensures Compare(a, b) == yes ==> Compare(a, c) == Compare(b, c)
    ensures Compare(b, c) == yes ==> Compare(a, c) == Compare(a, b)
  {
  }

  /** What lies within something within `a`. */
  lemma VerdictsCompose(a: Node, b: Node, c: Node)
    requires Answer(b, c) == yes
    ensures Answer(a, b) == yes ==> Answer(a, c) == yes
    ensures Answer(a, b) == maybe ==> Answer(a, c) == maybe
  {
    hide Path;
    if Answer(a, b) != no {
      var p, q, r := Path(a).value, Path(b).value, Path(c).value;
      forall i | 0 <= i < |p| ensures Compare(p[i], r[i]) == Compare(p[i], q[i]) {
        CompareComposes(p[i], q[i], r[i]);
        assert Compare(q[i], r[i]) == yes;
      }
      if Answer(a, b) == maybe {
        var k :| 0 <= k < |p| && Compare(p[k], q[k]) == maybe;
        assert Compare(p[k], r[k]) == maybe;
      }
    }
  }

  lemma YesMaybeIsNeverNo(a: Node, b: Node, c: Node)
    requires Answer(a, b) == yes && Answer(b, c) == maybe
    ensures Answer(a, c) != no
  {
    hide Path;
    var p, q, r := Path(a).value, Path(b).value, Path(c).value;
    forall i | 0 <= i < |p| ensures Compare(p[i], r[i]) != no {
      CompareComposes(p[i], q[i], r[i]);
      assert Compare(p[i], q[i]) == yes && Compare(q[i], r[i]) != no;
    }
  }

  predicate OpenAt(p: seq<Item>, i: nat)
    requires i < |p|
  {
    p[i].At? && p[i].index.Runtime?
  }

  lemma {:induction false} RuntimeInPath(n: Node)
    requires Path(n).Some?
    ensures HasRuntimeIndex(n) <==> exists i | 0 <= i < |Path(n).value| :: OpenAt(Path(n).value, i)
  {
    if Transparent(n) {
      RuntimeInPath(n.base);
    } else if Important(n) {
      RuntimeInPath(n.base);
      var p, q := Path(n.base).value, Path(n).value;
      assert q == p + [ItemOf(n)];
      assert forall i | 0 <= i < |p| :: OpenAt(q, i) == OpenAt(p, i);
      assert OpenAt(q, |p|) <==> n.BracketExpr? && n.index.Runtime?;
    }
  }

  /** An expression never is apart from itself, and surely contains itself exactly if no index is left open. */
  lemma SelfAlias(n: Node)
    requires Innermost(n) != Other
    ensures Answer(n, n) != no
    ensures Answer(n, n) == yes <==> !HasRuntimeIndex(n)
  {
    hide Path, HasRuntimeIndex, Innermost;
    PathLocates(n, (_, _) => 0);
    RuntimeInPath(n);
    var p := Path(n).value;
    forall i | 0 <= i < |p|
      ensures Compare(p[i], p[i]) == if OpenAt(p, i) then maybe else yes
    {
    }
  }
}
