/** The member tree of `difflog/members.py`: every namespace (module or
    class) keeps three separate dicts, `classes`, `attributes` and
    `functions`; absent annotations, values and defaults are `None`; the
    name filter sees the namespace path and the name, and by default
    rejects private names. */
module Members {
  import opened Wrappers
  import opened Dicts
  import opened PythonAst
  import Signature

  /** `check_name_fn(path, name)`. */
  type CheckName = (seq<string>, string) -> bool

  datatype Argument =
    | PositionalOnly(path: seq<string>, annotation: Option<string>, position: nat, default: Option<string>)
    | PositionalOrKeyword(path: seq<string>, annotation: Option<string>, position: nat, default: Option<string>)
    | VarPositional(path: seq<string>, annotation: Option<string>)
    | KeywordOnly(path: seq<string>, annotation: Option<string>, default: Option<string>)
    | VarKeyword(path: seq<string>, annotation: Option<string>)
  {
    predicate HasPosition() {
      PositionalOnly? || PositionalOrKeyword?
    }
  }

  datatype AttributeMember = AttributeMember(path: seq<string>, annotation: Option<string>, value: Option<string>)

  datatype FunctionMember = FunctionMember(
    path: seq<string>,
    arguments: Dict<Argument>,
    returnType: Option<string>,
    isAsync: bool,
    decorators: seq<string>)

  datatype Namespace = Namespace(
    path: seq<string>,
    classes: Dict<Namespace>,
    attributes: Dict<AttributeMember>,
    functions: Dict<FunctionMember>,
    decorators: seq<string>)

  predicate StartsWith(s: string, prefix: string) {
    prefix <= s
  }

  predicate EndsWith(s: string, suffix: string) {
    |suffix| <= |s| && s[|s| - |suffix|..] == suffix
  }

  /** `_default_check_name_fn`: a name starting with `_` is private unless it
      also ends with `_` and is longer than `_` itself. */
  predicate DefaultCheckName(path: seq<string>, name: string) {
    !(StartsWith(name, "_") && (name == "_" || !EndsWith(name, "_")))
  }

  /** The filter in terms of characters: a name is kept when it is empty,
      does not start with an underscore, or is at least two characters long
      and ends with one. */
  lemma DefaultCheckNameChars(path: seq<string>, name: string)
    ensures DefaultCheckName(path, name) <==>
      (name == [] || name[0] != '_' || (|name| >= 2 && name[|name| - 1] == '_'))
  {
    if name != [] && name[0] == '_' {
      assert StartsWith(name, "_");
      if |name| >= 2 && name[|name| - 1] == '_' {
        assert name[|name| - 1..] == "_";
        assert name != "_";
      }
    }
  }

  /** Dunder names pass; single- and double-underscore private names and `_`
      itself do not. */
  lemma DefaultCheckNameExamples(path: seq<string>)
    ensures DefaultCheckName(path, "__init__")
    ensures DefaultCheckName(path, "public")
    ensures !DefaultCheckName(path, "_x")
    ensures !DefaultCheckName(path, "__x")
    ensures !DefaultCheckName(path, "_")
  {
    DefaultCheckNameChars(path, "__init__");
    DefaultCheckNameChars(path, "public");
    DefaultCheckNameChars(path, "_x");
    DefaultCheckNameChars(path, "__x");
    DefaultCheckNameChars(path, "_");
  }

  /** `target.id if isinstance(target, ast.Name) else ast.unparse(target)`. */
  function TargetName(t: Target): string {
    if t.Name? then t.id else Unparse(t)
  }

  function ArgumentOf(p: Signature.Param, functionPath: seq<string>): Argument {
    var path := functionPath + [p.name];
    match p
    case PositionalOnly(_, ann, pos, d) => PositionalOnly(path, ann, pos, d)
    case PositionalOrKeyword(_, ann, pos, d) => PositionalOrKeyword(path, ann, pos, d)
    case VarPositional(_, ann) => VarPositional(path, ann)
    case KeywordOnly(_, ann, d) => KeywordOnly(path, ann, d)
    case VarKeyword(_, ann) => VarKeyword(path, ann)
  }

  /** The (name, argument) assignments `FunctionMember.from_ast` performs, in order. */
  function ArgumentEntries(a: Arguments, functionPath: seq<string>): (e: seq<(string, Argument)>)
    ensures |e| == |Signature.Layout(a)|
    ensures forall i :: 0 <= i < |e| ==>
      e[i] == (Signature.Layout(a)[i].name, ArgumentOf(Signature.Layout(a)[i], functionPath))
  {
    var l := Signature.Layout(a);
    seq(|l|, i requires 0 <= i < |l| => (l[i].name, ArgumentOf(l[i], functionPath)))
  }

  ghost predicate ArgumentPathsOk(f: FunctionMember) {
    && UniqueKeys(f.arguments)
    && forall i :: 0 <= i < |f.arguments| ==> f.arguments[i].1.path == f.path + [f.arguments[i].0]
  }

  /** `FunctionMember.from_ast(node, path)`. */
  function FunctionFromAst(s: Stmt, path: seq<string>): (f: FunctionMember)
    requires s.IsFunction()
    ensures f.path == path
    ensures f.isAsync <==> s.AsyncFunctionDef?
    ensures f.decorators == s.decoratorList
    ensures f.returnType == s.returnAnnotation
    ensures ArgumentPathsOk(f)
    ensures forall k :: k in Keys(f.arguments) <==> k in Keys(ArgumentEntries(s.args, path))
  {
    ArgumentDictPaths(s.args, path);
    FunctionMember(path, FromSeq(ArgumentEntries(s.args, path)), s.returnAnnotation, s.AsyncFunctionDef?, s.decoratorList)
  }

  /** The `arguments` dict holds each name once, each argument at the
      function path plus its name. */
  lemma ArgumentDictPaths(a: Arguments, path: seq<string>)
    ensures var args := FromSeq(ArgumentEntries(a, path));
      && UniqueKeys(args)
      && forall i :: 0 <= i < |args| ==> args[i].1.path == path + [args[i].0]
  {
    var e := ArgumentEntries(a, path);
    FromSeqUnique(e);
    var p := (x: (string, Argument)) => x.1.path == path + [x.0];
    forall i | 0 <= i < |e|
      ensures p(e[i])
    {
      ArgumentOfKeeps(Signature.Layout(a)[i], path);
    }
    FromSeqAll(e, p);
  }

  /** `AttributeMember.from_ast(node)` with the path the namespace assigns. */
  function AttributeFromAst(s: Stmt, path: seq<string>): (a: AttributeMember)
    requires s.Assign? || s.AnnAssign?
    ensures a.path == path
    ensures a.annotation.None? <==> s.Assign?
    ensures a.value.None? <==> s.AnnAssign? && s.value.None?
    ensures s.AnnAssign? ==> a.annotation == Some(s.annotation) && a.value == s.value
  {
    if s.AnnAssign? then AttributeMember(path, Some(s.annotation), s.value)
    else AttributeMember(path, None, Some(s.rhs))
  }

  /** Every member sits at its namespace's path plus its own key, at every
      depth, and no dict holds a key twice. */
  ghost predicate PathsOk(ns: Namespace)
    decreases ns
  {
    && UniqueKeys(ns.classes) && UniqueKeys(ns.attributes) && UniqueKeys(ns.functions)
    && (forall i :: 0 <= i < |ns.classes| ==>
          ns.classes[i].1.path == ns.path + [ns.classes[i].0] && PathsOk(ns.classes[i].1))
    && (forall i :: 0 <= i < |ns.attributes| ==> ns.attributes[i].1.path == ns.path + [ns.attributes[i].0])
    && (forall i :: 0 <= i < |ns.functions| ==>
          ns.functions[i].1.path == ns.path + [ns.functions[i].0] && ArgumentPathsOk(ns.functions[i].1))
  }

  /** Every key of every dict, at every depth, passed the filter for the
      path of the namespace holding it. */
  ghost predicate NamesAccepted(ns: Namespace, checkName: CheckName)
    decreases ns
  {
    && (forall i :: 0 <= i < |ns.classes| ==>
          checkName(ns.path, ns.classes[i].0) && NamesAccepted(ns.classes[i].1, checkName))
    && (forall i :: 0 <= i < |ns.attributes| ==> checkName(ns.path, ns.attributes[i].0))
    && (forall i :: 0 <= i < |ns.functions| ==> checkName(ns.path, ns.functions[i].0))
  }

  ghost predicate Built(ns: Namespace, path: seq<string>, checkName: CheckName) {
    ns.path == path && PathsOk(ns) && NamesAccepted(ns, checkName)
  }

  /** `Namespace.from_ast(module, check_name_fn)`: the module namespace has
      the empty path and no decorators, and every member in it was accepted
      by the filter in force (the default one when none is given). */
  function ModuleFromAst(m: Module, checkName: Option<CheckName>): (ns: Namespace)
    ensures ns.path == [] && ns.decorators == []
    ensures PathsOk(ns)
    ensures NamesAccepted(ns, if checkName.Some? then checkName.value else DefaultCheckName)
  {
    var fn := if checkName.Some? then checkName.value else DefaultCheckName;
    Children(m.body, [], fn)
  }

  /** `Namespace.from_ast(class_def, check_name_fn, path)`: the nested class
      is built with the same filter and carries its decorators. */
  function ClassFromAst(s: Stmt, path: seq<string>, checkName: CheckName): (ns: Namespace)
    requires s.ClassDef?
    ensures Built(ns, path, checkName)
    ensures ns.decorators == s.decoratorList
    decreases s, 0
  {
    Children(s.body, path, checkName).(decorators := s.decoratorList)
  }

  /** The loop over the namespace's child statements, in order. */
  function Children(body: seq<Stmt>, path: seq<string>, checkName: CheckName): (ns: Namespace)
    ensures Built(ns, path, checkName)
    ensures ns.decorators == []
    decreases body, 2
  {
    if body == [] then Namespace(path, [], [], [], [])
    else AddStmt(body[|body| - 1], Children(body[..|body| - 1], path, checkName), checkName)
  }

  /** One iteration of that loop. */
  function AddStmt(s: Stmt, ns: Namespace, checkName: CheckName): (r: Namespace)
    requires Built(ns, ns.path, checkName)
    ensures Built(r, ns.path, checkName)
    ensures r.decorators == ns.decorators
    decreases s, 1
  {
    match s
    case ClassDef(name, _, _, _) =>
      if !checkName(ns.path, name) then ns
      else AddClass(ns, name, ClassFromAst(s, ns.path + [name], checkName), checkName)
    case FunctionDef(name, _, _, _) =>
      if !checkName(ns.path, name) then ns
      else AddFunction(ns, name, FunctionFromAst(s, ns.path + [name]), checkName)
    case AsyncFunctionDef(name, _, _, _) =>
      if !checkName(ns.path, name) then ns
      else AddFunction(ns, name, FunctionFromAst(s, ns.path + [name]), checkName)
    case AnnAssign(target, _, _) =>
      var name := TargetName(target);
      if !checkName(ns.path, name) then ns
      else AddAttribute(ns, name, AttributeFromAst(s, ns.path + [name]), checkName)
    case Assign(targets, _) => AssignTargets(targets, s, ns, checkName)
    case Other => ns
  }

  /** `self.classes[name] = ...`. */
  function AddClass(ns: Namespace, name: string, c: Namespace, checkName: CheckName): (r: Namespace)
    requires Built(ns, ns.path, checkName)
    requires checkName(ns.path, name) && Built(c, ns.path + [name], checkName)
    ensures Built(r, ns.path, checkName)
    ensures r == ns.(classes := Put(ns.classes, name, c))
  {
    var cs := Put(ns.classes, name, c);
    PutSlots(ns.classes, name, c);
    UniqueKeysPut(ns.classes, name, c);
    assert forall i :: 0 <= i < |cs| ==>
      cs[i].1.path == ns.path + [cs[i].0] && PathsOk(cs[i].1) && checkName(ns.path, cs[i].0) && NamesAccepted(cs[i].1, checkName);
    ns.(classes := cs)
  }

  /** `self.functions[name] = ...`. */
  function AddFunction(ns: Namespace, name: string, f: FunctionMember, checkName: CheckName): (r: Namespace)
    requires Built(ns, ns.path, checkName)
    requires checkName(ns.path, name) && f.path == ns.path + [name] && ArgumentPathsOk(f)
    ensures Built(r, ns.path, checkName)
    ensures r == ns.(functions := Put(ns.functions, name, f))
  {
    var fs := Put(ns.functions, name, f);
    PutSlots(ns.functions, name, f);
    UniqueKeysPut(ns.functions, name, f);
    assert forall i :: 0 <= i < |fs| ==>
      fs[i].1.path == ns.path + [fs[i].0] && ArgumentPathsOk(fs[i].1) && checkName(ns.path, fs[i].0);
    ns.(functions := fs)
  }

  /** `self.attributes[name] = ...`. */
  function AddAttribute(ns: Namespace, name: string, a: AttributeMember, checkName: CheckName): (r: Namespace)
    requires Built(ns, ns.path, checkName)
    requires checkName(ns.path, name) && a.path == ns.path + [name]
    ensures Built(r, ns.path, checkName)
    ensures r == ns.(attributes := Put(ns.attributes, name, a))
  {
    var attrs := Put(ns.attributes, name, a);
    PutSlots(ns.attributes, name, a);
    UniqueKeysPut(ns.attributes, name, a);
    assert forall i :: 0 <= i < |attrs| ==> attrs[i].1.path == ns.path + [attrs[i].0] && checkName(ns.path, attrs[i].0);
    ns.(attributes := attrs)
  }

  /** `for target in child.targets`: one attribute per accepted target, all
      built from the same statement. */
  function AssignTargets(targets: seq<Target>, s: Stmt, ns: Namespace, checkName: CheckName): (r: Namespace)
    requires s.Assign?
    requires Built(ns, ns.path, checkName)
    ensures Built(r, ns.path, checkName)
    ensures r.classes == ns.classes && r.functions == ns.functions && r.decorators == ns.decorators
  {
    if targets == [] then ns
    else
      var r := AssignTargets(targets[..|targets| - 1], s, ns, checkName);
      var name := TargetName(targets[|targets| - 1]);
      if !checkName(ns.path, name) then r
      else AddAttribute(r, name, AttributeFromAst(s, ns.path + [name]), checkName)
  }

  /** The names of the three dicts are exactly the declared names of that
      kind the filter accepts: nothing rejected gets in, nothing accepted is
      lost. */
  lemma {:induction false} ChildrenKeys(body: seq<Stmt>, path: seq<string>, checkName: CheckName)
    ensures var ns := Children(body, path, checkName);
      && (forall k :: k in Keys(ns.classes) <==> k in ClassNames(body) && checkName(path, k))
      && (forall k :: k in Keys(ns.functions) <==> k in FunctionNames(body) && checkName(path, k))
      && (forall k :: k in Keys(ns.attributes) <==> k in AttributeNames(body) && checkName(path, k))
  {
    if body != [] {
      var n := |body| - 1;
      var s, init := body[n], Children(body[..n], path, checkName);
      ChildrenKeys(body[..n], path, checkName);
      AddStmtKeys(s, init, checkName);
      assert forall k :: k in ClassNames(body) <==> k in ClassNames(body[..n]) || (s.ClassDef? && k == s.name);
      assert forall k :: k in FunctionNames(body) <==> k in FunctionNames(body[..n]) || (s.IsFunction() && k == s.name);
      AttributeNamesLast(body);
    }
  }

  /** The names one statement gives to the attribute dict. */
  function StmtAttributeNames(s: Stmt): seq<string> {
    match s
    case AnnAssign(t, _, _) => [TargetName(t)]
    case Assign(ts, _) => TargetNames(ts)
    case _ => []
  }

  function TargetNames(ts: seq<Target>): (names: seq<string>)
    ensures |names| == |ts|
    ensures forall i :: 0 <= i < |ts| ==> names[i] == TargetName(ts[i])
  {
    if ts == [] then [] else TargetNames(ts[..|ts| - 1]) + [TargetName(ts[|ts| - 1])]
  }

  /** The attribute names of `body` are those of all but its last statement
      and those of the last one. */
  lemma AttributeNamesLast(body: seq<Stmt>)
    requires body != []
    ensures forall k :: k in AttributeNames(body) <==>
      k in AttributeNames(body[..|body| - 1]) || k in StmtAttributeNames(body[|body| - 1])
  {
    var s := body[|body| - 1];
    if s.Assign? {
      var u := seq(|s.targets|, i requires 0 <= i < |s.targets| => Unparse(s.targets[i]));
      assert TargetNames(s.targets) == u;
    }
  }

  lemma AddStmtKeys(s: Stmt, ns: Namespace, checkName: CheckName)
    requires Built(ns, ns.path, checkName)
    ensures var r := AddStmt(s, ns, checkName);
      && (forall k :: k in Keys(r.classes) <==> k in Keys(ns.classes) || (s.ClassDef? && k == s.name && checkName(ns.path, k)))
      && (forall k :: k in Keys(r.functions) <==> k in Keys(ns.functions) || (s.IsFunction() && k == s.name && checkName(ns.path, k)))
      && (forall k :: k in Keys(r.attributes) <==>
            k in Keys(ns.attributes) || (k in StmtAttributeNames(s) && checkName(ns.path, k)))
  {
    if s.ClassDef? {
      ClassStmtKeys(s, ns, checkName);
    } else if s.IsFunction() {
      FunctionStmtKeys(s, ns, checkName);
    } else if s.AnnAssign? {
      AnnAssignStmtKeys(s, ns, checkName);
    } else if s.Assign? {
      AssignTargetsKeys(s.targets, s, ns, checkName);
      assert StmtAttributeNames(s) == TargetNames(s.targets);
    } else {
      assert StmtAttributeNames(s) == [];
    }
  }

  lemma ClassStmtKeys(s: Stmt, ns: Namespace, checkName: CheckName)
    requires s.ClassDef? && Built(ns, ns.path, checkName)
    ensures var r := AddStmt(s, ns, checkName);
      && r.functions == ns.functions && r.attributes == ns.attributes
      && StmtAttributeNames(s) == []
      && (forall k :: k in Keys(r.classes) <==> k in Keys(ns.classes) || (k == s.name && checkName(ns.path, k)))
  {
    if checkName(ns.path, s.name) {
      PutKeys(ns.classes, s.name, ClassFromAst(s, ns.path + [s.name], checkName));
    }
  }

  lemma FunctionStmtKeys(s: Stmt, ns: Namespace, checkName: CheckName)
    requires s.IsFunction() && Built(ns, ns.path, checkName)
    ensures var r := AddStmt(s, ns, checkName);
      && r.classes == ns.classes && r.attributes == ns.attributes
      && StmtAttributeNames(s) == []
      && (forall k :: k in Keys(r.functions) <==> k in Keys(ns.functions) || (k == s.name && checkName(ns.path, k)))
  {
    if checkName(ns.path, s.name) {
      PutKeys(ns.functions, s.name, FunctionFromAst(s, ns.path + [s.name]));
    }
  }

  lemma AnnAssignStmtKeys(s: Stmt, ns: Namespace, checkName: CheckName)
    requires s.AnnAssign? && Built(ns, ns.path, checkName)
    ensures var r := AddStmt(s, ns, checkName);
      && r.classes == ns.classes && r.functions == ns.functions
      && StmtAttributeNames(s) == [TargetName(s.target)]
      && (forall k :: k in Keys(r.attributes) <==> k in Keys(ns.attributes) || (k == TargetName(s.target) && checkName(ns.path, k)))
  {
    var name := TargetName(s.target);
    if checkName(ns.path, name) {
      PutKeys(ns.attributes, name, AttributeFromAst(s, ns.path + [name]));
    }
  }

  lemma {:induction false} AssignTargetsKeys(targets: seq<Target>, s: Stmt, ns: Namespace, checkName: CheckName)
    requires s.Assign? && Built(ns, ns.path, checkName)
    ensures forall k :: k in Keys(AssignTargets(targets, s, ns, checkName).attributes) <==>
      k in Keys(ns.attributes) || (k in TargetNames(targets) && checkName(ns.path, k))
  {
    if targets != [] {
      var n := |targets| - 1;
      AssignTargetsKeys(targets[..n], s, ns, checkName);
    }
  }

  lemma ChildrenSnoc(body: seq<Stmt>, s: Stmt, path: seq<string>, checkName: CheckName)
    ensures Children(body + [s], path, checkName) == AddStmt(s, Children(body, path, checkName), checkName)
  {
    assert (body + [s])[..|body|] == body;
  }

  /** A declaration appended after `body` replaces whatever that body bound
      to the same name in the dict of its own kind, in place, and leaves the
      other two dicts alone: a class and a function may share a name. */
  lemma LaterDeclarationOverwrites(body: seq<Stmt>, s: Stmt, path: seq<string>, checkName: CheckName)
    requires s.ClassDef? || s.IsFunction() || s.AnnAssign?
    requires checkName(path, if s.AnnAssign? then TargetName(s.target) else s.name)
    ensures var before := Children(body, path, checkName);
      var after := Children(body + [s], path, checkName);
      var name := if s.AnnAssign? then TargetName(s.target) else s.name;
      && (s.ClassDef? ==>
            && Get(after.classes, name) == Some(ClassFromAst(s, path + [name], checkName))
            && Keys(after.classes) == (if name in Keys(before.classes) then Keys(before.classes) else Keys(before.classes) + [name])
            && (forall k :: k != name ==> Get(after.classes, k) == Get(before.classes, k))
            && after.functions == before.functions && after.attributes == before.attributes)
      && (s.IsFunction() ==>
            && Get(after.functions, name) == Some(FunctionFromAst(s, path + [name]))
            && Keys(after.functions) == (if name in Keys(before.functions) then Keys(before.functions) else Keys(before.functions) + [name])
            && (forall k :: k != name ==> Get(after.functions, k) == Get(before.functions, k))
            && after.classes == before.classes && after.attributes == before.attributes)
      && (s.AnnAssign? ==>
            && Get(after.attributes, name) == Some(AttributeMember(path + [name], Some(s.annotation), s.value))
            && Keys(after.attributes) == (if name in Keys(before.attributes) then Keys(before.attributes) else Keys(before.attributes) + [name])
            && (forall k :: k != name ==> Get(after.attributes, k) == Get(before.attributes, k))
            && after.classes == before.classes && after.functions == before.functions)
  {
    ChildrenSnoc(body, s, path, checkName);
    var before := Children(body, path, checkName);
    var name := if s.AnnAssign? then TargetName(s.target) else s.name;
    if s.ClassDef? {
      forall k ensures Get(Put(before.classes, name, ClassFromAst(s, path + [name], checkName)), k) ==
        if k == name then Some(ClassFromAst(s, path + [name], checkName)) else Get(before.classes, k)
      {
        GetPut(before.classes, name, ClassFromAst(s, path + [name], checkName), k);
      }
    } else if s.IsFunction() {
      forall k ensures Get(Put(before.functions, name, FunctionFromAst(s, path + [name])), k) ==
        if k == name then Some(FunctionFromAst(s, path + [name])) else Get(before.functions, k)
      {
        GetPut(before.functions, name, FunctionFromAst(s, path + [name]), k);
      }
    } else {
      forall k ensures Get(Put(before.attributes, name, AttributeFromAst(s, path + [name])), k) ==
        if k == name then Some(AttributeFromAst(s, path + [name])) else Get(before.attributes, k)
      {
        GetPut(before.attributes, name, AttributeFromAst(s, path + [name]), k);
      }
    }
  }

  /** `a = b = v`: every accepted target becomes its own attribute with no
      annotation and the shared value; other names keep what they had. */
  lemma {:induction false} ChainedAssignment(targets: seq<Target>, v: Expr, ns: Namespace, checkName: CheckName)
    requires Built(ns, ns.path, checkName)
    ensures var r := AddStmt(Assign(targets, v), ns, checkName);
      && (forall i :: 0 <= i < |targets| && checkName(ns.path, TargetName(targets[i])) ==>
            Get(r.attributes, TargetName(targets[i])) == Some(AttributeMember(ns.path + [TargetName(targets[i])], None, Some(v))))
      && (forall k :: (forall i :: 0 <= i < |targets| ==> TargetName(targets[i]) != k) ==>
            Get(r.attributes, k) == Get(ns.attributes, k))
      && r.classes == ns.classes && r.functions == ns.functions
  {
    AssignTargetsGet(targets, Assign(targets, v), ns, checkName);
  }

  lemma {:induction false} AssignTargetsGet(targets: seq<Target>, s: Stmt, ns: Namespace, checkName: CheckName)
    requires s.Assign? && Built(ns, ns.path, checkName)
    ensures var r := AssignTargets(targets, s, ns, checkName);
      && (forall i :: 0 <= i < |targets| && checkName(ns.path, TargetName(targets[i])) ==>
            Get(r.attributes, TargetName(targets[i])) == Some(AttributeMember(ns.path + [TargetName(targets[i])], None, Some(s.rhs))))
      && (forall k :: (forall i :: 0 <= i < |targets| ==> TargetName(targets[i]) != k) ==>
            Get(r.attributes, k) == Get(ns.attributes, k))
  {
    if targets != [] {
      var n := |targets| - 1;
      var prev := AssignTargets(targets[..n], s, ns, checkName);
      AssignTargetsGet(targets[..n], s, ns, checkName);
      var name := TargetName(targets[n]);
      var r := AssignTargets(targets, s, ns, checkName);
      forall k ensures Get(r.attributes, k) == if k == name && checkName(ns.path, name) then Some(AttributeMember(ns.path + [name], None, Some(s.rhs))) else Get(prev.attributes, k)
      {
        if checkName(ns.path, name) {
          GetPut(prev.attributes, name, AttributeFromAst(s, ns.path + [name]), k);
        }
      }
      forall i | 0 <= i < n ensures targets[..n][i] == targets[i] { }
    }
  }

  /** With distinct parameter names nothing is overwritten: the
      `arguments` dict is the insertion sequence itself. */
  lemma ArgumentsAreEntries(s: Stmt, path: seq<string>)
    requires s.IsFunction() && Signature.DistinctNames(s.args)
    ensures FunctionFromAst(s, path).arguments == ArgumentEntries(s.args, path)
  {
    var e := ArgumentEntries(s.args, path);
    assert UniqueKeys(e);
    FromSeqDistinct(e);
  }

  lemma ArgumentOfKeeps(p: Signature.Param, path: seq<string>)
    ensures ArgumentOf(p, path).path == path + [p.name]
    ensures ArgumentOf(p, path).annotation == p.annotation
    ensures ArgumentOf(p, path).HasPosition() <==> p.HasPosition()
    ensures p.HasPosition() ==> ArgumentOf(p, path).position == p.position && ArgumentOf(p, path).default == p.default
  {
  }

  /** The positional part of an `arguments` dict: the N positional
      parameters come first in declaration order, carrying their own
      annotations, positions 0..N-1 and right-aligned defaults (`None` for
      the first N - D); no later
      argument has a position; every argument's path is the function's path
      plus its name. */
  ghost predicate PositionalSlots(a: Arguments, args: Dict<Argument>, path: seq<string>)
    requires Signature.WellFormed(a)
  {
    var p := |a.posonlyargs|;
    var n := p + |a.args|;
    && |args| >= n
    && (forall i :: 0 <= i < |args| ==> args[i].1.path == path + [args[i].0])
    && (forall i :: 0 <= i < |args| ==> (args[i].1.HasPosition() <==> i < n))
    && (forall i :: 0 <= i < n ==>
          && args[i].0 == (if i < p then a.posonlyargs[i].arg else a.args[i - p].arg)
          && args[i].1.annotation == (if i < p then a.posonlyargs[i].annotation else a.args[i - p].annotation)
          && args[i].1.position == i
          && args[i].1.default == Signature.AlignedDefault(a, i))
  }

  /** What follows the positional part: `*args`, then keyword-only
      parameter i with `kw_defaults[i]` (`None` when it has no default),
      then `**kwargs`, and nothing else. */
  ghost predicate TrailingSlots(a: Arguments, args: Dict<Argument>, path: seq<string>)
    requires Signature.WellFormed(a)
  {
    var n := |a.posonlyargs| + |a.args|;
    var v := if a.vararg.Some? then 1 else 0;
    var w := if a.kwarg.Some? then 1 else 0;
    && |args| == n + v + |a.kwonlyargs| + w
    && (forall i :: 0 <= i < |a.kwonlyargs| ==>
          args[n + v + i] ==
            (a.kwonlyargs[i].arg, KeywordOnly(path + [a.kwonlyargs[i].arg], a.kwonlyargs[i].annotation, a.kwDefaults[i])))
    && (a.vararg.Some? ==>
          args[n] == (a.vararg.value.arg, VarPositional(path + [a.vararg.value.arg], a.vararg.value.annotation)))
    && (a.kwarg.Some? ==>
          args[|args| - 1] == (a.kwarg.value.arg, VarKeyword(path + [a.kwarg.value.arg], a.kwarg.value.annotation)))
  }

  /** `FunctionMember.from_ast` on a definition Python accepts lays out
      its positional arguments as `PositionalSlots` describes. */
  lemma FunctionPositionalArguments(s: Stmt, path: seq<string>)
    requires s.IsFunction() && Signature.WellFormed(s.args) && Signature.DistinctNames(s.args)
    ensures PositionalSlots(s.args, FunctionFromAst(s, path).arguments, path)
  {
    var a := s.args;
    var e := ArgumentEntries(a, path);
    ArgumentsAreEntries(s, path);
    Signature.LayoutPositional(a);
    Signature.LayoutDefaults(a);
    Signature.PositionsDense(a);
    EntriesPositional(a, Signature.Layout(a), e, path);
    assert FunctionFromAst(s, path).arguments == e;
  }

  /** ... and the rest as `TrailingSlots` describes. */
  lemma FunctionTrailingArguments(s: Stmt, path: seq<string>)
    requires s.IsFunction() && Signature.WellFormed(s.args) && Signature.DistinctNames(s.args)
    ensures TrailingSlots(s.args, FunctionFromAst(s, path).arguments, path)
  {
    var a := s.args;
    var e := ArgumentEntries(a, path);
    ArgumentsAreEntries(s, path);
    Signature.LayoutTail(a);
    EntriesTrailing(a, Signature.Layout(a), e, path);
    assert FunctionFromAst(s, path).arguments == e;
  }

  lemma EntriesPositional(a: Arguments, l: seq<Signature.Param>, e: seq<(string, Argument)>, path: seq<string>)
    requires Signature.WellFormed(a)
    requires |e| == |l| >= |a.posonlyargs| + |a.args|
    requires forall i :: 0 <= i < |e| ==> e[i] == (l[i].name, ArgumentOf(l[i], path))
    requires forall i :: 0 <= i < |a.posonlyargs| ==>
      l[i].name == a.posonlyargs[i].arg && l[i].annotation == a.posonlyargs[i].annotation
    requires forall i :: |a.posonlyargs| <= i < |a.posonlyargs| + |a.args| ==>
      l[i].name == a.args[i - |a.posonlyargs|].arg && l[i].annotation == a.args[i - |a.posonlyargs|].annotation
    requires forall i :: 0 <= i < |l| ==> (l[i].HasPosition() <==> i < |a.posonlyargs| + |a.args|)
    requires forall i :: 0 <= i < |a.posonlyargs| + |a.args| ==>
      l[i].HasPosition() && l[i].position == i && l[i].default == Signature.AlignedDefault(a, i)
    ensures PositionalSlots(a, e, path)
  {
    forall i | 0 <= i < |e|
      ensures e[i].1.path == path + [e[i].0]
      ensures e[i].1.annotation == l[i].annotation
      ensures e[i].1.HasPosition() <==> l[i].HasPosition()
      ensures l[i].HasPosition() ==> e[i].1.position == l[i].position && e[i].1.default == l[i].default
    {
      ArgumentOfKeeps(l[i], path);
    }
  }

  lemma EntriesTrailing(a: Arguments, l: seq<Signature.Param>, e: seq<(string, Argument)>, path: seq<string>)
    requires Signature.WellFormed(a)
    requires |e| == |l|
    requires forall i :: 0 <= i < |e| ==> e[i] == (l[i].name, ArgumentOf(l[i], path))
    requires Signature.TailShape(a, l)
    ensures TrailingSlots(a, e, path)
  {
  }
}
