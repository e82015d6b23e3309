/** The member tree of `difflog/parse_api.py`: every namespace keeps ONE
    `members` dict shared by classes, functions and attributes; absent
    annotations, values, defaults and return types are empty text; classes
    record their bases; every member kind has a fixed `type_name`; the name
    filter sees only the name and by default accepts everything. */
module ParseApi {
  import opened Wrappers
  import opened Dicts
  import opened PythonAst
  import Signature
  import Members

  /** `check_name_fn(name)`. */
  type CheckName = string -> bool

  /** The default filter, `lambda _: True`. */
  const AcceptAll: CheckName := _ => true

  datatype ApiMember =
    | AttributeMember(path: seq<string>, annotation: string, value: string)
    | PositionalOrKeyword(path: seq<string>, annotation: string, position: nat, default: string)
    | VarPositional(path: seq<string>, annotation: string)
    | VarKeyword(path: seq<string>, annotation: string)
    | KeywordOnly(path: seq<string>, annotation: string, default: string)
    | PositionalOnly(path: seq<string>, annotation: string, position: nat, default: string)
    | FunctionMember(path: seq<string>, arguments: Dict<ApiMember>, returnType: string, isAsync: bool, decorators: seq<string>)
    | ClassMember(path: seq<string>, members: Dict<ApiMember>, bases: seq<string>, decorators: seq<string>)
    | ModuleMember(path: seq<string>, members: Dict<ApiMember>)
  {
    /** The `type_name` property of each member class. */
    function TypeName(): string {
      match this
      case AttributeMember(_, _, _) => "attribute"
      case PositionalOrKeyword(_, _, _, _) => "positional or keyword argument"
      case VarPositional(_, _) => "var positional argument"
      case VarKeyword(_, _) => "var keyword argument"
      case KeywordOnly(_, _, _) => "keyword-only argument"
      case PositionalOnly(_, _, _, _) => "positional-only argument"
      case FunctionMember(_, _, _, _, _) => "function"
      case ClassMember(_, _, _, _) => "class"
      case ModuleMember(_, _) => "module"
    }

    predicate IsArgument() {
      PositionalOrKeyword? || VarPositional? || VarKeyword? || KeywordOnly? || PositionalOnly?
    }

    predicate HasPosition() {
      PositionalOrKeyword? || PositionalOnly?
    }

    /** Kinds a namespace's `members` dict can hold. */
    predicate IsDeclaration() {
      AttributeMember? || FunctionMember? || ClassMember?
    }

    predicate IsNamespace() {
      ClassMember? || ModuleMember?
    }
  }

  /** Two members are of the same class. */
  predicate SameKind(a: ApiMember, b: ApiMember) {
    && (a.AttributeMember? <==> b.AttributeMember?)
    && (a.PositionalOrKeyword? <==> b.PositionalOrKeyword?)
    && (a.VarPositional? <==> b.VarPositional?)
    && (a.VarKeyword? <==> b.VarKeyword?)
    && (a.KeywordOnly? <==> b.KeywordOnly?)
    && (a.PositionalOnly? <==> b.PositionalOnly?)
    && (a.FunctionMember? <==> b.FunctionMember?)
    && (a.ClassMember? <==> b.ClassMember?)
    && (a.ModuleMember? <==> b.ModuleMember?)
  }

  /** `type_name` tells the nine member classes apart: two members report the
      same tag exactly when they are of the same class. */
  lemma TypeNameIdentifiesKind(a: ApiMember, b: ApiMember)
    ensures a.TypeName() == b.TypeName() <==> SameKind(a, b)
  {
  }

  /** `ast.unparse(x) if x else ""`. */
  function Text(x: Option<string>): string {
    if x.Some? then x.value else ""
  }

  function ArgumentOf(p: Signature.Param, functionPath: seq<string>): ApiMember {
    var path := functionPath + [p.name];
    match p
    case PositionalOnly(_, ann, pos, d) => PositionalOnly(path, Text(ann), pos, Text(d))
    case PositionalOrKeyword(_, ann, pos, d) => PositionalOrKeyword(path, Text(ann), pos, Text(d))
    case VarPositional(_, ann) => VarPositional(path, Text(ann))
    case KeywordOnly(_, ann, d) => KeywordOnly(path, Text(ann), Text(d))
    case VarKeyword(_, ann) => VarKeyword(path, Text(ann))
  }

  /** The (name, argument) assignments `_parse_arguments` performs, in order. */
  function ArgumentEntries(a: Arguments, functionPath: seq<string>): (e: seq<(string, ApiMember)>)
    ensures |e| == |Signature.Layout(a)|
    ensures forall i :: 0 <= i < |e| ==>
      e[i] == (Signature.Layout(a)[i].name, ArgumentOf(Signature.Layout(a)[i], functionPath))
  {
    var l := Signature.Layout(a);
    seq(|l|, i requires 0 <= i < |l| => (l[i].name, ArgumentOf(l[i], functionPath)))
  }

  /** `FunctionMember(path=path, node=node)` after `__post_init__`. */
  function FunctionFromAst(s: Stmt, path: seq<string>): (f: ApiMember)
    requires s.IsFunction()
    ensures f.FunctionMember? && f.path == path
    ensures f.isAsync <==> s.AsyncFunctionDef?
    ensures f.decorators == s.decoratorList
    ensures f.returnType == "" <==> s.returnAnnotation.None?
    ensures WellFormed(f)
  {
    ArgumentDictOk(s.args, path);
    FunctionMember(path, FromSeq(ArgumentEntries(s.args, path)), Text(s.returnAnnotation), s.AsyncFunctionDef?, s.decoratorList)
  }

  /** The `arguments` dict holds each name once, and only arguments, each
      at the function path plus its name. */
  lemma ArgumentDictOk(a: Arguments, path: seq<string>)
    ensures ArgumentsOk(path, FromSeq(ArgumentEntries(a, path)))
  {
    var e := ArgumentEntries(a, path);
    var p := (x: (string, ApiMember)) => x.1.path == path + [x.0] && x.1.IsArgument();
    forall i | 0 <= i < |e|
      ensures p(e[i])
    {
      assert e[i].1 == ArgumentOf(Signature.Layout(a)[i], path);
    }
    FromSeqAll(e, p);
    FromSeqUnique(e);
  }

  /** `AttributeMember(path=path, node=node)` after `__post_init__`: an
      annotation only for an annotated assignment, a value only when one is
      assigned. */
  function AttributeFromAst(s: Stmt, path: seq<string>): (a: ApiMember)
    requires s.Assign? || s.AnnAssign?
    ensures a.AttributeMember? && a.path == path
    ensures a.annotation == "" <==> s.Assign?
    ensures a.value == "" <==> s.AnnAssign? && s.value.None?
  {
    if s.AnnAssign? then AttributeMember(path, s.annotation, Text(s.value))
    else AttributeMember(path, "", s.rhs)
  }

  /** The shape every built tree has: each member sits at its parent's path
      plus its key, no dict holds a key twice, namespaces hold only
      attributes, functions and classes, functions hold only arguments. */
  ghost predicate WellFormed(m: ApiMember)
    decreases m
  {
    match m
    case FunctionMember(_, args, _, _, _) => ArgumentsOk(m.path, args)
    case ModuleMember(_, _) | ClassMember(_, _, _, _) =>
      && UniqueKeys(m.members)
      && forall i :: 0 <= i < |m.members| ==>
           && m.members[i].1.path == m.path + [m.members[i].0]
           && m.members[i].1.IsDeclaration()
           && WellFormed(m.members[i].1)
    case _ => true
  }

  /** The shape of a function's `arguments` dict. */
  ghost predicate ArgumentsOk(path: seq<string>, args: Dict<ApiMember>) {
    && UniqueKeys(args)
    && forall i :: 0 <= i < |args| ==> args[i].1.path == path + [args[i].0] && args[i].1.IsArgument()
  }

  /** Every key of every namespace, at every depth, passed the filter. */
  ghost predicate NamesAccepted(m: ApiMember, checkName: CheckName)
    decreases m
  {
    m.IsNamespace() ==>
      forall i :: 0 <= i < |m.members| ==> checkName(m.members[i].0) && NamesAccepted(m.members[i].1, checkName)
  }

  /** What the loop over a namespace's children keeps true of `members`. */
  ghost predicate Built(ms: Dict<ApiMember>, path: seq<string>, checkName: CheckName) {
    && UniqueKeys(ms)
    && forall i :: 0 <= i < |ms| ==>
         && ms[i].1.path == path + [ms[i].0]
         && ms[i].1.IsDeclaration()
         && WellFormed(ms[i].1)
         && checkName(ms[i].0)
         && NamesAccepted(ms[i].1, checkName)
  }

  /** `ModuleMember(node=module, check_name_fn=...)`: the module's path is
      empty, the tree is well formed, and no member anywhere has a name the
      filter rejects. */
  function ModuleFromAst(m: Module, checkName: CheckName): (r: ApiMember)
    ensures r.ModuleMember? && r.path == []
    ensures WellFormed(r) && NamesAccepted(r, checkName)
  {
    ModuleMember([], Children(m.body, [], checkName))
  }

  /** `ClassMember(path=path, node=class_def, check_name_fn=...)`: the nested
      class keeps its parent's filter and records bases and decorators in
      source order. */
  function ClassFromAst(s: Stmt, path: seq<string>, checkName: CheckName): (c: ApiMember)
    requires s.ClassDef?
    ensures c.ClassMember? && c.path == path
    ensures c.bases == s.bases && c.decorators == s.decoratorList
    ensures WellFormed(c) && NamesAccepted(c, checkName)
    decreases s, 0
  {
    ClassMember(path, Children(s.body, path, checkName), s.bases, s.decoratorList)
  }

  /** The loop of `NamespaceMember.__post_init__` over the child statements. */
  function Children(body: seq<Stmt>, path: seq<string>, checkName: CheckName): (ms: Dict<ApiMember>)
    ensures Built(ms, path, checkName)
    decreases body, 2
  {
    if body == [] then []
    else AddStmt(body[|body| - 1], path, checkName, Children(body[..|body| - 1], path, checkName))
  }

  /** One iteration of that loop. */
  function AddStmt(s: Stmt, path: seq<string>, checkName: CheckName, ms: Dict<ApiMember>): (r: Dict<ApiMember>)
    requires Built(ms, path, checkName)
    ensures Built(r, path, checkName)
    decreases s, 1
  {
    match s
    case ClassDef(name, _, _, _) =>
      if !checkName(name) then ms
      else AddMember(ms, path, checkName, name, ClassFromAst(s, path + [name], checkName))
    case FunctionDef(name, _, _, _) =>
      if !checkName(name) then ms
      else AddMember(ms, path, checkName, name, FunctionFromAst(s, path + [name]))
    case AsyncFunctionDef(name, _, _, _) =>
      if !checkName(name) then ms
      else AddMember(ms, path, checkName, name, FunctionFromAst(s, path + [name]))
    case AnnAssign(target, _, _) =>
      var name := Unparse(target);
      if !checkName(name) then ms
      else AddMember(ms, path, checkName, name, AttributeFromAst(s, path + [name]))
    case Assign(targets, _) => AssignTargets(targets, s, path, checkName, ms)
    case Other => ms
  }

  /** `self.members[name] = member`. */
  function AddMember(ms: Dict<ApiMember>, path: seq<string>, checkName: CheckName, name: string, m: ApiMember): (r: Dict<ApiMember>)
    requires Built(ms, path, checkName)
    requires checkName(name) && m.path == path + [name] && m.IsDeclaration()
    requires WellFormed(m) && NamesAccepted(m, checkName)
    ensures Built(r, path, checkName)
    ensures r == Put(ms, name, m)
  {
    var p := (x: (string, ApiMember)) =>
      x.1.path == path + [x.0] && x.1.IsDeclaration() && WellFormed(x.1) && checkName(x.0) && NamesAccepted(x.1, checkName);
    assert All(ms, p);
    AllPut(ms, name, m, p);
    UniqueKeysPut(ms, name, m);
    Put(ms, name, m)
  }

  /** `for target in child.targets`. */
  function AssignTargets(targets: seq<Target>, s: Stmt, path: seq<string>, checkName: CheckName, ms: Dict<ApiMember>): (r: Dict<ApiMember>)
    requires s.Assign?
    requires Built(ms, path, checkName)
    ensures Built(r, path, checkName)
  {
    if targets == [] then ms
    else
      var r := AssignTargets(targets[..|targets| - 1], s, path, checkName, ms);
      var name := Unparse(targets[|targets| - 1]);
      if !checkName(name) then r
      else AddMember(r, path, checkName, name, AttributeFromAst(s, path + [name]))
  }

  /** Each key of a namespace's `members` is a name some class, function or
      assignment target of its body declares, and one the filter accepts;
      every such name is a key. */
  lemma {:induction false} ChildrenKeys(body: seq<Stmt>, path: seq<string>, checkName: CheckName)
    ensures forall k :: k in Keys(Children(body, path, checkName)) <==>
      (k in ClassNames(body) || k in FunctionNames(body) || k in AttributeNames(body)) && checkName(k)
  {
    if body != [] {
      var n := |body| - 1;
      ChildrenKeys(body[..n], path, checkName);
      AddStmtKeys(body[n], path, checkName, Children(body[..n], path, checkName));
      DeclaredNamesLast(body);
    }
  }

  /** The names `body` declares are those of all but its last statement and
      those of the last one. */
  lemma DeclaredNamesLast(body: seq<Stmt>)
    requires body != []
    ensures var n := |body| - 1;
      forall k :: (k in ClassNames(body) || k in FunctionNames(body) || k in AttributeNames(body)) <==>
        (k in ClassNames(body[..n]) || k in FunctionNames(body[..n]) || k in AttributeNames(body[..n])) ||
        k in StmtNames(body[n])
  {
    Members.AttributeNamesLast(body);
  }

  /** The names one statement adds to `members`. */
  function StmtNames(s: Stmt): seq<string> {
    match s
    case ClassDef(name, _, _, _) => [name]
    case FunctionDef(name, _, _, _) => [name]
    case AsyncFunctionDef(name, _, _, _) => [name]
    case _ => Members.StmtAttributeNames(s)
  }

  lemma AddStmtKeys(s: Stmt, path: seq<string>, checkName: CheckName, ms: Dict<ApiMember>)
    requires Built(ms, path, checkName)
    ensures forall k :: k in Keys(AddStmt(s, path, checkName, ms)) <==>
      k in Keys(ms) || (k in StmtNames(s) && checkName(k))
  {
    if s.Assign? {
      AssignTargetsKeys(s.targets, s, path, checkName, ms);
      assert StmtNames(s) == Members.TargetNames(s.targets);
    } else if s.Other? {
      assert StmtNames(s) == [];
    } else {
      var name := DeclaredName(s);
      assert StmtNames(s) == [name] by {
        if s.AnnAssign? { assert Members.StmtAttributeNames(s) == [Members.TargetName(s.target)]; }
      }
      AddDeclaration(s, path, checkName, ms);
      if checkName(name) {
        PutKeys(ms, name, DeclaredMember(s, path, checkName));
      }
    }
  }

  /** A class, function or annotated assignment is one `members[name] = ...`
      when the filter accepts its name, and nothing otherwise. */
  lemma AddDeclaration(s: Stmt, path: seq<string>, checkName: CheckName, ms: Dict<ApiMember>)
    requires s.ClassDef? || s.IsFunction() || s.AnnAssign?
    requires Built(ms, path, checkName)
    ensures AddStmt(s, path, checkName, ms) ==
      if checkName(DeclaredName(s)) then Put(ms, DeclaredName(s), DeclaredMember(s, path, checkName)) else ms
  {
  }

  lemma {:induction false} AssignTargetsKeys(targets: seq<Target>, s: Stmt, path: seq<string>, checkName: CheckName, ms: Dict<ApiMember>)
    requires s.Assign? && Built(ms, path, checkName)
    ensures forall k :: k in Keys(AssignTargets(targets, s, path, checkName, ms)) <==>
      k in Keys(ms) || (k in Members.TargetNames(targets) && checkName(k))
  {
    if targets != [] {
      AssignTargetsKeys(targets[..|targets| - 1], s, path, checkName, ms);
    }
  }

  /** With the default filter every declared name is a key of the module. */
  lemma DefaultFilterKeepsAll(m: Module)
    ensures forall k :: k in Keys(ModuleFromAst(m, AcceptAll).members) <==>
      k in ClassNames(m.body) || k in FunctionNames(m.body) || k in AttributeNames(m.body)
  {
    ChildrenKeys(m.body, [], AcceptAll);
  }

  lemma ChildrenSnoc(body: seq<Stmt>, s: Stmt, path: seq<string>, checkName: CheckName)
    ensures Children(body + [s], path, checkName) == AddStmt(s, path, checkName, Children(body, path, checkName))
  {
    assert (body + [s])[..|body|] == body;
  }

  /** The name a class, function or annotated assignment declares. */
  function DeclaredName(s: Stmt): string
    requires s.ClassDef? || s.IsFunction() || s.AnnAssign?
  {
    if s.AnnAssign? then Unparse(s.target) else s.name
  }

  /** The member a class, function or annotated assignment becomes. */
  function DeclaredMember(s: Stmt, path: seq<string>, checkName: CheckName): ApiMember
    requires s.ClassDef? || s.IsFunction() || s.AnnAssign?
  {
    var p := path + [DeclaredName(s)];
    if s.ClassDef? then ClassFromAst(s, p, checkName)
    else if s.IsFunction() then FunctionFromAst(s, p)
    else AttributeFromAst(s, p)
  }

  /** All kinds share one dict: a declaration after `body` replaces whatever
      member `body` bound to the same name, whatever its kind, keeping the
      key's slot, and leaves every other name alone. */
  lemma LaterDeclarationReplaces(body: seq<Stmt>, s: Stmt, path: seq<string>, checkName: CheckName, k: string)
    requires s.ClassDef? || s.IsFunction() || s.AnnAssign?
    requires checkName(DeclaredName(s))
    ensures var before := Children(body, path, checkName);
      var after := Children(body + [s], path, checkName);
      var name := DeclaredName(s);
      && Get(after, k) == (if k == name then Some(DeclaredMember(s, path, checkName)) else Get(before, k))
      && Keys(after) == (if name in Keys(before) then Keys(before) else Keys(before) + [name])
  {
    ChildrenSnoc(body, s, path, checkName);
    var before := Children(body, path, checkName);
    AddDeclaration(s, path, checkName, before);
    GetPut(before, DeclaredName(s), DeclaredMember(s, path, checkName), k);
  }

  /** `a = b = v`: every accepted target becomes an attribute with no
      annotation and the shared value, replacing whatever held that name;
      other names keep what they had. */
  lemma AssignTargetsGet(targets: seq<Target>, s: Stmt, path: seq<string>, checkName: CheckName, ms: Dict<ApiMember>)
    requires s.Assign? && Built(ms, path, checkName)
    ensures var r := AssignTargets(targets, s, path, checkName, ms);
      && (forall i :: 0 <= i < |targets| && checkName(Unparse(targets[i])) ==>
            Get(r, Unparse(targets[i])) == Some(AttributeMember(path + [Unparse(targets[i])], "", s.rhs)))
      && (forall k :: (forall i :: 0 <= i < |targets| ==> Unparse(targets[i]) != k) ==>
            Get(r, k) == Get(ms, k))
  {
    AssignTargetsAccepted(targets, s, path, checkName, ms);
    AssignTargetsOthers(targets, s, path, checkName, ms);
  }

  lemma {:induction false} AssignTargetsAccepted(targets: seq<Target>, s: Stmt, path: seq<string>, checkName: CheckName, ms: Dict<ApiMember>)
    requires s.Assign? && Built(ms, path, checkName)
    ensures forall i :: 0 <= i < |targets| && checkName(Unparse(targets[i])) ==>
      Get(AssignTargets(targets, s, path, checkName, ms), Unparse(targets[i])) ==
        Some(AttributeMember(path + [Unparse(targets[i])], "", s.rhs))
  {
    if targets != [] {
      var n := |targets| - 1;
      var prev := AssignTargets(targets[..n], s, path, checkName, ms);
      var r := AssignTargets(targets, s, path, checkName, ms);
      var name := Unparse(targets[n]);
      AssignTargetsAccepted(targets[..n], s, path, checkName, ms);
      AssignTargetsLast(targets, s, path, checkName, ms);
      forall i | 0 <= i < |targets| && checkName(Unparse(targets[i]))
        ensures Get(r, Unparse(targets[i])) == Some(AttributeMember(path + [Unparse(targets[i])], "", s.rhs))
      {
        var k := Unparse(targets[i]);
        if i < n && k != name {
          assert targets[..n][i] == targets[i];
        }
      }
    }
  }

  lemma {:induction false} AssignTargetsOthers(targets: seq<Target>, s: Stmt, path: seq<string>, checkName: CheckName, ms: Dict<ApiMember>)
    requires s.Assign? && Built(ms, path, checkName)
    ensures forall k :: (forall i :: 0 <= i < |targets| ==> Unparse(targets[i]) != k) ==>
      Get(AssignTargets(targets, s, path, checkName, ms), k) == Get(ms, k)
  {
    if targets != [] {
      var n := |targets| - 1;
      var name := Unparse(targets[n]);
      AssignTargetsOthers(targets[..n], s, path, checkName, ms);
      AssignTargetsLast(targets, s, path, checkName, ms);
      forall k | forall i :: 0 <= i < |targets| ==> Unparse(targets[i]) != k
        ensures Get(AssignTargets(targets, s, path, checkName, ms), k) == Get(ms, k)
      {
        assert k != name;
        assert forall i :: 0 <= i < n ==> targets[..n][i] == targets[i];
      }
    }
  }

  /** The last target of a chained assignment is one `members[name] = ...`
      on top of the earlier targets. */
  lemma AssignTargetsLast(targets: seq<Target>, s: Stmt, path: seq<string>, checkName: CheckName, ms: Dict<ApiMember>)
    requires s.Assign? && Built(ms, path, checkName) && targets != []
    ensures var n := |targets| - 1;
      var name := Unparse(targets[n]);
      forall k :: Get(AssignTargets(targets, s, path, checkName, ms), k) ==
        if k == name && checkName(name) then Some(AttributeMember(path + [name], "", s.rhs))
        else Get(AssignTargets(targets[..n], s, path, checkName, ms), k)
  {
    var n := |targets| - 1;
    var prev := AssignTargets(targets[..n], s, path, checkName, ms);
    var name := Unparse(targets[n]);
    forall k
      ensures Get(AssignTargets(targets, s, path, checkName, ms), k) ==
        if k == name && checkName(name) then Some(AttributeMember(path + [name], "", s.rhs)) else Get(prev, k)
    {
      if checkName(name) {
        GetPut(prev, name, AttributeFromAst(s, path + [name]), k);
      }
    }
  }

  /** The `difflog/members.py` argument in this tree's terms: `None` becomes
      empty text. */
  function FromMembersArgument(a: Members.Argument): ApiMember {
    match a
    case PositionalOnly(p, ann, pos, d) => PositionalOnly(p, Text(ann), pos, Text(d))
    case PositionalOrKeyword(p, ann, pos, d) => PositionalOrKeyword(p, Text(ann), pos, Text(d))
    case VarPositional(p, ann) => VarPositional(p, Text(ann))
    case KeywordOnly(p, ann, d) => KeywordOnly(p, Text(ann), Text(d))
    case VarKeyword(p, ann) => VarKeyword(p, Text(ann))
  }

  function FromMembersFunction(f: Members.FunctionMember): ApiMember {
    FunctionMember(f.path, MapValues(f.arguments, FromMembersArgument), Text(f.returnType), f.isAsync, f.decorators)
  }

  function FromMembersAttribute(a: Members.AttributeMember): ApiMember {
    AttributeMember(a.path, Text(a.annotation), Text(a.value))
  }

  /** The two builders read a function definition the same way: this
      tree's function member is the `difflog/members.py` one with every
      absent annotation, default and return type written as empty text. */
  lemma FunctionAgrees(s: Stmt, path: seq<string>)
    requires s.IsFunction()
    ensures FunctionFromAst(s, path) == FromMembersFunction(Members.FunctionFromAst(s, path))
  {
    var e := Members.ArgumentEntries(s.args, path);
    EntriesAgree(s.args, path);
    MapValuesFromSeq(e, FromMembersArgument);
    var m := Members.FunctionFromAst(s, path);
    assert m.arguments == FromSeq(e);
  }

  /** Argument by argument, the two builders agree. */
  lemma EntriesAgree(a: Arguments, path: seq<string>)
    ensures ArgumentEntries(a, path) == MapValues(Members.ArgumentEntries(a, path), FromMembersArgument)
  {
    var l := Signature.Layout(a);
    var e := Members.ArgumentEntries(a, path);
    var ours := ArgumentEntries(a, path);
    var theirs := MapValues(e, FromMembersArgument);
    forall i | 0 <= i < |l|
      ensures ours[i] == theirs[i]
    {
      assert e[i] == (l[i].name, Members.ArgumentOf(l[i], path));
      assert FromMembersArgument(Members.ArgumentOf(l[i], path)) == ArgumentOf(l[i], path);
    }
  }

  lemma AttributeAgrees(s: Stmt, path: seq<string>)
    requires s.Assign? || s.AnnAssign?
    ensures AttributeFromAst(s, path) == FromMembersAttribute(Members.AttributeFromAst(s, path))
  {
  }

  /** Given the same filter, this tree's `members` of a namespace hold
      exactly the names found in the class, function and attribute dicts of
      the `difflog/members.py` namespace, together. */
  lemma KeysAreUnion(body: seq<Stmt>, path: seq<string>, checkName: CheckName, memberCheck: Members.CheckName)
    requires forall k :: checkName(k) == memberCheck(path, k)
    ensures var ns := Members.Children(body, path, memberCheck);
      forall k :: k in Keys(Children(body, path, checkName)) <==>
        k in Keys(ns.classes) || k in Keys(ns.functions) || k in Keys(ns.attributes)
  {
    ChildrenKeys(body, path, checkName);
    Members.ChildrenKeys(body, path, memberCheck);
  }

  /** Positions and defaults of a function's positional arguments: the N
      positional parameters come first, parameter i with its own annotation
      (or empty text), at position i, with the i-th right-aligned default or
      empty text, and nothing else has a position; every argument sits at
      the function's path plus its name. */
  ghost predicate PositionalSlots(a: Arguments, args: Dict<ApiMember>, path: seq<string>)
    requires Signature.WellFormed(a)
  {
    var p := |a.posonlyargs|;
    var n := p + |a.args|;
    && |args| >= n
    && (forall i :: 0 <= i < |args| ==> args[i].1.path == path + [args[i].0])
    && (forall i :: 0 <= i < |args| ==> (args[i].1.HasPosition() <==> i < n))
    && (forall i :: 0 <= i < n ==>
          && args[i].0 == (if i < p then a.posonlyargs[i].arg else a.args[i - p].arg)
          && args[i].1.annotation == Text(if i < p then a.posonlyargs[i].annotation else a.args[i - p].annotation)
          && args[i].1.position == i
          && args[i].1.default == Text(Signature.AlignedDefault(a, i)))
  }

  /** What follows the positional part: `*args`, then keyword-only
      parameter i with `kw_defaults[i]` or empty text, then `**kwargs`, and
      nothing else. */
  ghost predicate TrailingSlots(a: Arguments, args: Dict<ApiMember>, path: seq<string>)
    requires Signature.WellFormed(a)
  {
    var n := |a.posonlyargs| + |a.args|;
    var v := if a.vararg.Some? then 1 else 0;
    && |args| == n + v + |a.kwonlyargs| + (if a.kwarg.Some? then 1 else 0)
    && (forall i :: 0 <= i < |a.kwonlyargs| ==>
          args[n + v + i] ==
            (a.kwonlyargs[i].arg, KeywordOnly(path + [a.kwonlyargs[i].arg], Text(a.kwonlyargs[i].annotation), Text(a.kwDefaults[i]))))
    && (a.vararg.Some? ==>
          args[n] == (a.vararg.value.arg, VarPositional(path + [a.vararg.value.arg], Text(a.vararg.value.annotation))))
    && (a.kwarg.Some? ==>
          args[|args| - 1] == (a.kwarg.value.arg, VarKeyword(path + [a.kwarg.value.arg], Text(a.kwarg.value.annotation))))
  }

  /** `FunctionMember.__post_init__` on a definition Python accepts. */
  lemma FunctionArguments(s: Stmt, path: seq<string>)
    requires s.IsFunction() && Signature.WellFormed(s.args) && Signature.DistinctNames(s.args)
    ensures PositionalSlots(s.args, FunctionFromAst(s, path).arguments, path)
    ensures TrailingSlots(s.args, FunctionFromAst(s, path).arguments, path)
  {
    FunctionAgrees(s, path);
    Members.FunctionPositionalArguments(s, path);
    Members.FunctionTrailingArguments(s, path);
    var margs := Members.FunctionFromAst(s, path).arguments;
    ConvertPositional(s.args, margs, path);
    ConvertTrailing(s.args, margs, path);
  }

  lemma ConvertPositional(a: Arguments, margs: Dict<Members.Argument>, path: seq<string>)
    requires Signature.WellFormed(a) && Members.PositionalSlots(a, margs, path)
    ensures PositionalSlots(a, MapValues(margs, FromMembersArgument), path)
  {
    var args := MapValues(margs, FromMembersArgument);
    forall i | 0 <= i < |args|
      ensures args[i].0 == margs[i].0 && args[i].1.path == margs[i].1.path
      ensures args[i].1.annotation == Text(margs[i].1.annotation)
      ensures args[i].1.HasPosition() <==> margs[i].1.HasPosition()
      ensures margs[i].1.HasPosition() ==>
        args[i].1.position == margs[i].1.position && args[i].1.default == Text(margs[i].1.default)
    {
    }
  }

  lemma ConvertTrailing(a: Arguments, margs: Dict<Members.Argument>, path: seq<string>)
    requires Signature.WellFormed(a) && Members.TrailingSlots(a, margs, path)
    ensures TrailingSlots(a, MapValues(margs, FromMembersArgument), path)
  {
  }
}
