/** The change classifier of `difflog/diff.py`: the flat rows a structural
    differ reports between two member trees become typed change events.
    The rows are an input; the differ that produces them is not modelled. */
module Diff {
  import opened Wrappers
  import opened Dicts
  import opened ParseApi
  import opened PythonAst

  /** One step of a differ path: a dict key or attribute name, or a list index. */
  datatype Segment = Key(key: string) | Index(index: int)

  /** The Python values a walk can meet inside a member tree. */
  datatype Value =
    | MemberV(member: ApiMember)
    | DictV(entries: Dict<ApiMember>)
    | ListV(items: seq<string>)
    | StrV(text: string)
    | IntV(number: int)
    | BoolV(flag: bool)
    | OpaqueV    // an AST node or a name filter: reachable, never compared
    | NoneV

  /** `member[name]`, which is `getattr(member, name)`; `None` stands for the
      `AttributeError` of a name the member does not have. */
  function Field(m: ApiMember, name: string): (r: Option<Value>)
    ensures name == "path" ==> r == Some(ListV(m.path))
    ensures name == "type_name" ==> r == Some(StrV(m.TypeName()))
    ensures r.Some? && r.value.MemberV? ==> false
  {
    if name == "path" then Some(ListV(m.path))
    else if name == "type_name" then Some(StrV(m.TypeName()))
    else if name == "node" && !m.IsArgument() then Some(OpaqueV)
    else if name == "check_name_fn" && m.IsNamespace() then Some(OpaqueV)
    else
      match m
      case AttributeMember(_, ann, v) =>
        if name == "annotation" then Some(StrV(ann))
        else if name == "value" then Some(StrV(v))
        else None
      case PositionalOrKeyword(_, ann, pos, d) => PositionalField(name, ann, pos, d)
      case PositionalOnly(_, ann, pos, d) => PositionalField(name, ann, pos, d)
      case VarPositional(_, ann) => if name == "annotation" then Some(StrV(ann)) else None
      case VarKeyword(_, ann) => if name == "annotation" then Some(StrV(ann)) else None
      case KeywordOnly(_, ann, d) =>
        if name == "annotation" then Some(StrV(ann))
        else if name == "default" then Some(StrV(d))
        else None
      case FunctionMember(_, args, ret, isAsync, decs) =>
        if name == "arguments" then Some(DictV(args))
        else if name == "returns" then Some(StrV(ret))
        else if name == "is_async" then Some(BoolV(isAsync))
        else if name == "decorators" then Some(ListV(decs))
        else None
      case ClassMember(_, ms, bases, decs) =>
        if name == "members" then Some(DictV(ms))
        else if name == "bases" then Some(ListV(bases))
        else if name == "decorators" then Some(ListV(decs))
        else None
      case ModuleMember(_, ms) => if name == "members" then Some(DictV(ms)) else None
  }

  function PositionalField(name: string, ann: string, pos: nat, d: string): Option<Value> {
    if name == "annotation" then Some(StrV(ann))
    else if name == "position" then Some(IntV(pos))
    else if name == "default" then Some(StrV(d))
    else None
  }

  /** Python indexing of a sequence, negative indices counting from the end;
      `None` is the `IndexError`. */
  function At<T>(s: seq<T>, i: int): (r: Option<T>)
    ensures r.Some? <==> -|s| <= i < |s|
    ensures 0 <= i < |s| ==> r == Some(s[i])
    ensures -|s| <= i < 0 ==> r == Some(s[|s| + i])
  {
    if 0 <= i < |s| then Some(s[i])
    else if -|s| <= i < 0 then Some(s[|s| + i])
    else None
  }

  /** `value[segment]`; `None` is the exception Python raises. A member is
      reached only as the value of a key of a `members` or `arguments` dict,
      and an index of a list is valid exactly in Python's range. */
  function Child(v: Value, seg: Segment): (r: Option<Value>)
    ensures r.Some? && r.value.MemberV? <==> v.DictV? && seg.Key? && seg.key in Keys(v.entries)
    ensures r.Some? && r.value.MemberV? ==> Get(v.entries, seg.key) == Some(r.value.member)
    ensures v.ListV? && seg.Index? ==> (r.Some? <==> -|v.items| <= seg.index < |v.items|)
  {
    match (v, seg)
    case (MemberV(m), Key(k)) => Field(m, k)
    case (DictV(d), Key(k)) => if k in Keys(d) then Some(MemberV(Get(d, k).value)) else None
    case (ListV(l), Index(i)) => if At(l, i).Some? then Some(StrV(At(l, i).value)) else None
    case (StrV(s), Index(i)) => if At(s, i).Some? then Some(StrV([At(s, i).value])) else None
    case _ => None
  }

  /** The loop of `_get_member_from_path`: the value reached so far and the
      last member met on the way. */
  function Walk(cur: Value, last: ApiMember, path: seq<Segment>): (r: Option<(Value, ApiMember)>)
    ensures path == [] ==> r == Some((cur, last))
    ensures r.Some? && r.value.0.MemberV? ==> r.value.1 == r.value.0.member || (path == [] && r.value.1 == last)
    decreases path
  {
    if path == [] then Some((cur, last))
    else
      match Child(cur, path[0])
      case None => None
      case Some(next) => Walk(next, if next.MemberV? then next.member else last, path[1..])
  }

  /** `_get_member_from_path(module, path)`: the last member on the walk,
      the module itself when the walk meets none; `None` when a step raises. */
  function GetMemberFromPath(root: ApiMember, path: seq<Segment>): (r: Option<ApiMember>)
    ensures path == [] ==> r == Some(root)
  {
    match Walk(MemberV(root), root, path)
    case None => None
    case Some((_, last)) => Some(last)
  }

  /** Walking a concatenation walks the first part, then the second from where
      the first stopped. */
  lemma {:induction false} WalkAppend(cur: Value, last: ApiMember, p: seq<Segment>, q: seq<Segment>)
    ensures Walk(cur, last, p + q) ==
      match Walk(cur, last, p)
      case None => None
      case Some((v, l)) => Walk(v, l, q)
    decreases p
  {
    if p == [] {
      assert p + q == q;
    } else {
      assert (p + q)[0] == p[0] && (p + q)[1..] == p[1..] + q;
      match Child(cur, p[0])
      case None =>
      case Some(next) => WalkAppend(next, if next.MemberV? then next.member else last, p[1..], q);
    }
  }

  /** The dict a member keeps its children in, with its field name. */
  function ChildDict(m: ApiMember): Option<(string, Dict<ApiMember>)> {
    if m.FunctionMember? then Some(("arguments", m.arguments))
    else if m.IsNamespace() then Some(("members", m.members))
    else None
  }

  /** A reference definition of "the member named by `names` below `m`",
      together with the differ path that addresses it: each name is a key of
      the `members` (or `arguments`) dict one level down. */
  function Lookup(m: ApiMember, names: seq<string>): (r: Option<(ApiMember, seq<Segment>)>)
    ensures r.Some? ==> |r.value.1| == 2 * |names|
    ensures names == [] ==> r == Some((m, []))
    decreases names
  {
    if names == [] then Some((m, []))
    else if ChildDict(m).None? || names[0] !in Keys(ChildDict(m).value.1) then None
    else
      var field, d := ChildDict(m).value.0, ChildDict(m).value.1;
      var sub := Lookup(Get(d, names[0]).value, names[1..]);
      if sub.None? then None
      else Some((sub.value.0, [Key(field), Key(names[0])] + sub.value.1))
  }

  /** Walking the differ path of a member finds that member. */
  lemma {:induction false} LookupWalk(m: ApiMember, names: seq<string>)
    requires Lookup(m, names).Some?
    ensures var t, p := Lookup(m, names).value.0, Lookup(m, names).value.1;
      Walk(MemberV(m), m, p) == Some((MemberV(t), t))
    decreases names
  {
    if names != [] {
      var field, d := ChildDict(m).value.0, ChildDict(m).value.1;
      var c := Get(d, names[0]).value;
      LookupWalk(c, names[1..]);
      var t, p := Lookup(c, names[1..]).value.0, Lookup(c, names[1..]).value.1;
      var q := [Key(field), Key(names[0])] + p;
      assert Lookup(m, names).value == (t, q);
      ChildDictField(m);
      assert Child(DictV(d), Key(names[0])) == Some(MemberV(c));
      assert q[1..] == [Key(names[0])] + p;
      assert ([Key(names[0])] + p)[1..] == p;
      assert Walk(MemberV(m), m, q) == Walk(DictV(d), m, [Key(names[0])] + p);
      assert Walk(DictV(d), m, [Key(names[0])] + p) == Walk(MemberV(c), c, p);
    }
  }

  /** The dict a namespace or function keeps its children in is one of its
      fields. */
  lemma ChildDictField(m: ApiMember)
    requires ChildDict(m).Some?
    ensures Child(MemberV(m), Key(ChildDict(m).value.0)) == Some(DictV(ChildDict(m).value.1))
  {
    if m.FunctionMember? {
      assert "arguments"[0] != "type_name"[0];
      assert |"arguments"| != |"path"| && |"arguments"| != |"node"|;
    } else {
      assert |"members"| != |"path"| && |"members"| != |"type_name"| && |"members"| != |"node"|;
      assert |"members"| != |"check_name_fn"|;
    }
  }

  /** In a well-formed tree the member found under `names` has path
      `m.path + names`. */
  lemma {:induction false} LookupPath(m: ApiMember, names: seq<string>)
    requires WellFormed(m) && Lookup(m, names).Some?
    ensures Lookup(m, names).value.0.path == m.path + names
    decreases names
  {
    if names != [] {
      var c := LookupStep(m, names);
      ChildShape(m, names[0]);
      if m.FunctionMember? {
        LookupArgument(c, names[1..]);
        assert names == [names[0]];
      } else {
        LookupPath(c, names[1..]);
        JoinPaths(m.path, names, c.path, Lookup(c, names[1..]).value.0.path);
      }
    }
  }

  /** Arguments have no children. */
  lemma LookupArgument(c: ApiMember, names: seq<string>)
    requires c.IsArgument() && Lookup(c, names).Some?
    ensures names == []
  {
  }

  lemma JoinPaths(p: seq<string>, names: seq<string>, q: seq<string>, r: seq<string>)
    requires names != [] && q == p + [names[0]] && r == q + names[1..]
    ensures r == p + names
  {
  }

  /** The first step of a successful lookup. */
  lemma LookupStep(m: ApiMember, names: seq<string>) returns (c: ApiMember)
    requires names != [] && Lookup(m, names).Some?
    ensures ChildDict(m).Some? && names[0] in Keys(ChildDict(m).value.1)
    ensures c == Get(ChildDict(m).value.1, names[0]).value
    ensures Lookup(c, names[1..]).Some?
    ensures Lookup(m, names).value.0 == Lookup(c, names[1..]).value.0
  {
    c := Get(ChildDict(m).value.1, names[0]).value;
  }

  /** A child of a well-formed member sits at its parent's path plus its key. */
  lemma ChildShape(m: ApiMember, k: string)
    requires WellFormed(m) && ChildDict(m).Some? && k in Keys(ChildDict(m).value.1)
    ensures var c := Get(ChildDict(m).value.1, k).value;
      && c.path == m.path + [k]
      && (m.FunctionMember? ==> c.IsArgument())
      && (m.IsNamespace() ==> WellFormed(c) && c.IsDeclaration())
  {
    var d := ChildDict(m).value.1;
    var i := GetIndex(d, k);
    if m.FunctionMember? {
      assert d == m.arguments;
    } else {
      assert d == m.members;
    }
  }

  /** The delta-row actions the classifier distinguishes. */
  datatype Action =
    | DictionaryItemAdded
    | DictionaryItemRemoved
    | TypeChanges
    | ValuesChanged
    | IterableItemAdded
    | IterableItemRemoved
    | OtherAction(name: string)

  /** One flat delta row. */
  datatype Row = Row(action: Action, path: seq<Segment>, value: Value, oldValue: Value)

  /** The `ApiChange` events: `path` is the owner's dotted parent path and
      `name` its own name. */
  datatype ApiChange =
    | Added(path: string, name: string, typeName: string)
    | Removed(path: string, name: string, typeName: string)
    | TypeChanged(path: string, name: string, fromType: string, toType: string)
    | Modified(path: string, name: string, typeName: string, prop: Segment, fromValue: Value, toValue: Value)
    | AddedClassBase(path: string, name: string, value: Value, position: Segment)
    | RemovedClassBase(path: string, name: string, value: Value, position: Segment)
    | ModifiedClassBase(path: string, name: string, position: Segment, fromValue: Value, toValue: Value)
    | AddedDecorator(path: string, name: string, typeName: string, value: Value, position: Segment)
    | RemovedDecorator(path: string, name: string, typeName: string, value: Value, position: Segment)
    | ModifiedDecorator(path: string, name: string, typeName: string, position: Segment, fromValue: Value, toValue: Value)

  /** The exceptions `diff` can raise on rows it was not written for. */
  datatype DiffError =
    | EmptyMemberPath     // `member.path[-1]` on the module
    | UnresolvedPath      // a step of `_get_member_from_path` raised
    | OldValueNotMember   // `row.old_value.type_name` on a plain value

  /** `".".join(parts)`. */
  function Join(parts: seq<string>): string {
    if parts == [] then ""
    else if |parts| == 1 then parts[0]
    else Join(parts[..|parts| - 1]) + "." + parts[|parts| - 1]
  }

  /** `(".".join(m.path[:-1]), m.path[-1])`. */
  function Locate(m: ApiMember): (r: Result<(string, string), DiffError>)
    ensures r.Success? <==> m.path != []
    ensures r.Success? ==> r.value == (Join(m.path[..|m.path| - 1]), m.path[|m.path| - 1])
  {
    if m.path == [] then Failure(EmptyMemberPath)
    else Success((Join(m.path[..|m.path| - 1]), m.path[|m.path| - 1]))
  }

  /** `_get_member_from_path(old_module, row.path[:-1])`. */
  function Owner(before: ApiMember, path: seq<Segment>): Result<ApiMember, DiffError>
    requires path != []
  {
    match GetMemberFromPath(before, path[..|path| - 1])
    case None => Failure(UnresolvedPath)
    case Some(m) => Success(m)
  }

  /** The guard of the list branches AS WRITTEN: the second-to-last segment
      names the list field. */
  predicate ListFieldAsWritten(path: seq<Segment>, field: string) {
    |path| > 1 && path[|path| - 2] == Key(field)
  }

  /** The guard as intended: the row is an item of the list field, so its
      last segment is an index. A member NAMED `bases` or `decorators`
      satisfies the guard as written but never this one. */
  predicate ListField(path: seq<Segment>, field: string) {
    ListFieldAsWritten(path, field) && path[|path| - 1].Index?
  }

  /** The `Added` (or `Removed`) event of a member at a non-empty path: its
      dotted parent path, its own name and its kind. */
  function PathEvent(m: ApiMember, added: bool): ApiChange
    requires m.path != []
  {
    var parent, name := Join(m.path[..|m.path| - 1]), m.path[|m.path| - 1];
    if added then Added(parent, name, m.TypeName()) else Removed(parent, name, m.TypeName())
  }

  /** One `Removed` (or `Added`) event per member of `ms`, in order. */
  function MemberEvents(ms: seq<ApiMember>, added: bool): (r: Result<seq<ApiChange>, DiffError>)
    ensures r.Success? <==> forall i :: 0 <= i < |ms| ==> ms[i].path != []
    ensures r.Success? ==> |r.value| == |ms|
    ensures r.Success? ==> forall i :: 0 <= i < |ms| ==> ms[i].path != [] && r.value[i] == PathEvent(ms[i], added)
  {
    if ms == [] then Success([])
    else
      var n := |ms| - 1;
      var init := MemberEvents(ms[..n], added);
      var last := Locate(ms[n]);
      assert forall i :: 0 <= i < n ==> ms[..n][i] == ms[i];
      if init.Failure? then Failure(init.error)
      else if last.Failure? then Failure(last.error)
      else
        var path, name := last.value.0, last.value.1;
        Success(init.value + [if added then Added(path, name, ms[n].TypeName()) else Removed(path, name, ms[n].TypeName())])
  }

  function ListGuard(intended: bool, path: seq<Segment>, field: string): bool {
    if intended then ListField(path, field) else ListFieldAsWritten(path, field)
  }

  /** The body of the loop over the delta rows; `intended` picks the
      list-field guard, so the code as written and as intended share one
      cascade.
      Every row gives no event, one event, or one per top-level member of
      both modules. */
  function ClassifyBy(intended: bool, before: ApiMember, after: ApiMember, row: Row): (r: Result<seq<ApiChange>, DiffError>)
    requires before.ModuleMember? && after.ModuleMember?
    ensures r.Success? ==> |r.value| <= 1 || |r.value| == |before.members| + |after.members|
  {
    Cascade(before, after, row, ListGuard(intended, row.path, "bases"), ListGuard(intended, row.path, "decorators"))
  }

  /** The `if`/`elif` cascade, given the outcome of the two list-field
      guards. */
  function Cascade(before: ApiMember, after: ApiMember, row: Row, bases: bool, decorators: bool): (r: Result<seq<ApiChange>, DiffError>)
    requires before.ModuleMember? && after.ModuleMember?
    requires bases || decorators ==> |row.path| > 1
    ensures r.Success? ==> |r.value| <= 1 || |r.value| == |before.members| + |after.members|
  {
    var path := row.path;
    if row.action == DictionaryItemAdded && row.value.MemberV? then
      var (p, n) :- Locate(row.value.member);
      Success([Added(p, n, row.value.member.TypeName())])
    else if row.action == DictionaryItemRemoved && row.value.MemberV? then
      var (p, n) :- Locate(row.value.member);
      Success([Removed(p, n, row.value.member.TypeName())])
    else if row.action == TypeChanges && row.value.MemberV? then
      var (p, n) :- Locate(row.value.member);
      if !row.oldValue.MemberV? then Failure(OldValueNotMember)
      else Success([TypeChanged(p, n, row.oldValue.member.TypeName(), row.value.member.TypeName())])
    else if row.action == ValuesChanged && |path| == 1 then
      var removed :- MemberEvents(Values(before.members), false);
      var added :- MemberEvents(Values(after.members), true);
      Success(removed + added)
    else if row.action == ValuesChanged && bases then
      var obj :- Owner(before, path);
      var (p, n) :- Locate(obj);
      Success([ModifiedClassBase(p, n, path[|path| - 1], row.oldValue, row.value)])
    else if row.action == ValuesChanged && decorators then
      var obj :- Owner(before, path);
      var (p, n) :- Locate(obj);
      Success([ModifiedDecorator(p, n, obj.TypeName(), path[|path| - 1], row.oldValue, row.value)])
    else if row.action == ValuesChanged && |path| > 1 then
      var obj :- Owner(before, path);
      var (p, n) :- Locate(obj);
      Success([Modified(p, n, obj.TypeName(), path[|path| - 1], row.oldValue, row.value)])
    else if row.action == IterableItemAdded && decorators then
      var obj :- Owner(before, path);
      var (p, n) :- Locate(obj);
      Success([AddedDecorator(p, n, obj.TypeName(), row.value, path[|path| - 1])])
    else if row.action == IterableItemRemoved && decorators then
      var obj :- Owner(before, path);
      var (p, n) :- Locate(obj);
      Success([RemovedDecorator(p, n, obj.TypeName(), row.value, path[|path| - 1])])
    else if row.action == IterableItemAdded && bases then
      var obj :- Owner(before, path);
      var (p, n) :- Locate(obj);
      Success([AddedClassBase(p, n, row.value, path[|path| - 1])])
    else if row.action == IterableItemRemoved && bases then
      var obj :- Owner(before, path);
      var (p, n) :- Locate(obj);
      Success([RemovedClassBase(p, n, row.value, path[|path| - 1])])
    else
      Success([])
  }

  /** The classifier the rest of the model uses. It differs from the code as
      written only on rows whose last segment is a key, never on an item of a
      list. */
  function Classify(before: ApiMember, after: ApiMember, row: Row): Result<seq<ApiChange>, DiffError>
    requires before.ModuleMember? && after.ModuleMember?
  {
    ClassifyBy(true, before, after, row)
  }

  /** The two classifiers can only part on a row whose last segment is a key. */
  lemma ClassifyAgrees(before: ApiMember, after: ApiMember, row: Row)
    requires before.ModuleMember? && after.ModuleMember?
    ensures row.path == [] || row.path[|row.path| - 1].Index? ==>
      Classify(before, after, row) == ClassifyAsWritten(before, after, row)
  {
  }

  /** The classifier exactly as `difflog/diff.py` writes it. */
  function ClassifyAsWritten(before: ApiMember, after: ApiMember, row: Row): Result<seq<ApiChange>, DiffError>
    requires before.ModuleMember? && after.ModuleMember?
  {
    ClassifyBy(false, before, after, row)
  }

  /** `diff(old_module, new_module)` over the given delta rows: the events of
      each row in row order; the first row that raises aborts the whole call.
      `intended` picks the list-field guard: `false` is the code as written,
      `true` the corrected guard. */
  function Diff(intended: bool, before: ApiMember, after: ApiMember, rows: seq<Row>): (r: Result<seq<ApiChange>, DiffError>)
    requires before.ModuleMember? && after.ModuleMember?
    ensures r.Success? <==> forall i :: 0 <= i < |rows| ==> ClassifyBy(intended, before, after, rows[i]).Success?
  {
    if rows == [] then Success([])
    else
      var n := |rows| - 1;
      var init := Diff(intended, before, after, rows[..n]);
      assert forall i :: 0 <= i < n ==> rows[..n][i] == rows[i];
      Then(init, ClassifyBy(intended, before, after, rows[n]))
  }

  /** Events of one stretch of rows followed by those of the next; the first
      error wins. */
  function Then(a: Result<seq<ApiChange>, DiffError>, b: Result<seq<ApiChange>, DiffError>): (r: Result<seq<ApiChange>, DiffError>)
    ensures r.Success? <==> a.Success? && b.Success?
    ensures a.Failure? ==> r == a
  {
    if a.Failure? then a
    else if b.Failure? then Failure(b.error)
    else Success(a.value + b.value)
  }

  /** `diff` on two parsed modules builds both trees with the default filter. */
  function DiffModules(intended: bool, beforeAst: Module, afterAst: Module, rows: seq<Row>): Result<seq<ApiChange>, DiffError> {
    Diff(intended, ModuleFromAst(beforeAst, AcceptAll), ModuleFromAst(afterAst, AcceptAll), rows)
  }

  /** The rows of a concatenation give the events of the first part followed
      by those of the second; an error in the first part wins. */
  lemma {:induction false} DiffAppend(intended: bool, before: ApiMember, after: ApiMember, rows: seq<Row>, more: seq<Row>)
    requires before.ModuleMember? && after.ModuleMember?
    ensures Diff(intended, before, after, rows + more) ==
      Then(Diff(intended, before, after, rows), Diff(intended, before, after, more))
    decreases more
  {
    var a := Diff(intended, before, after, rows);
    if more == [] {
      assert rows + more == rows;
      if a.Success? {
        assert a.value + [] == a.value;
      }
    } else {
      var n := |more| - 1;
      var init, row := more[..n], more[n];
      assert rows + more == (rows + init) + [row];
      assert more == init + [row];
      DiffSnoc(intended, before, after, rows + init, row);
      DiffSnoc(intended, before, after, init, row);
      DiffAppend(intended, before, after, rows, init);
      ThenAssociative(a, Diff(intended, before, after, init), ClassifyBy(intended, before, after, row));
    }
  }

  /** One more row appends its own events. */
  lemma DiffSnoc(intended: bool, before: ApiMember, after: ApiMember, rows: seq<Row>, row: Row)
    requires before.ModuleMember? && after.ModuleMember?
    ensures Diff(intended, before, after, rows + [row]) ==
      Then(Diff(intended, before, after, rows), ClassifyBy(intended, before, after, row))
  {
    var all := rows + [row];
    assert all[..|all| - 1] == rows;
    assert all[|all| - 1] == row;
  }

  lemma ThenAssociative(a: Result<seq<ApiChange>, DiffError>, b: Result<seq<ApiChange>, DiffError>, c: Result<seq<ApiChange>, DiffError>)
    ensures Then(Then(a, b), c) == Then(a, Then(b, c))
  {
    if a.Success? && b.Success? && c.Success? {
      assert a.value + b.value + c.value == a.value + (b.value + c.value);
    }
  }

  /** One row's events. */
  lemma DiffSingle(intended: bool, before: ApiMember, after: ApiMember, row: Row)
    requires before.ModuleMember? && after.ModuleMember?
    ensures Diff(intended, before, after, [row]) == ClassifyBy(intended, before, after, row)
  {
    assert [row][..0] == [];
    var c := ClassifyBy(intended, before, after, row);
    if c.Success? {
      assert [] + c.value == c.value;
    }
  }

  /** The corrected `diff` and the code as written give the same result on
      every batch of rows none of which ends in a key. */
  lemma {:induction false} DiffAgrees(before: ApiMember, after: ApiMember, rows: seq<Row>)
    requires before.ModuleMember? && after.ModuleMember?
    requires forall i :: 0 <= i < |rows| ==> rows[i].path == [] || rows[i].path[|rows[i].path| - 1].Index?
    ensures Diff(true, before, after, rows) == Diff(false, before, after, rows)
  {
    if rows != [] {
      var n := |rows| - 1;
      var init, row := rows[..n], rows[n];
      assert forall i :: 0 <= i < n ==> init[i] == rows[i];
      DiffAgrees(before, after, init);
      assert ClassifyBy(true, before, after, row) == ClassifyBy(false, before, after, row) by {
        ClassifyAgrees(before, after, row);
      }
    }
  }

  function Location(names: seq<string>): (string, string)
    requires names != []
  {
    (Join(names[..|names| - 1]), names[|names| - 1])
  }

  /** In a well-formed module the member addressed by `names` is located at
      `names`. */
  lemma LocateLookup(m: ApiMember, names: seq<string>)
    requires WellFormed(m) && m.path == [] && names != [] && Lookup(m, names).Some?
    ensures Locate(Lookup(m, names).value.0) == Success(Location(names))
  {
    LookupPath(m, names);
    assert m.path + names == names;
  }

  /** An added member, wherever it sits in the new tree, is reported as
      `Added` with its dotted parent path, its name and its kind; a removed
      one likewise as `Removed`, found in the old tree. */
  lemma AddedRemovedRows(intended: bool, before: ApiMember, after: ApiMember, names: seq<string>, oldValue: Value)
    requires before.ModuleMember? && after.ModuleMember? && before.path == [] && after.path == []
    requires WellFormed(before) && WellFormed(after) && names != []
    ensures Lookup(after, names).Some? ==>
      var t, p := Lookup(after, names).value.0, Lookup(after, names).value.1;
      var path, name := Location(names).0, Location(names).1;
      ClassifyBy(intended, before, after, Row(DictionaryItemAdded, p, MemberV(t), oldValue)) ==
        Success([Added(path, name, t.TypeName())])
    ensures Lookup(before, names).Some? ==>
      var t, p := Lookup(before, names).value.0, Lookup(before, names).value.1;
      var path, name := Location(names).0, Location(names).1;
      ClassifyBy(intended, before, after, Row(DictionaryItemRemoved, p, MemberV(t), oldValue)) ==
        Success([Removed(path, name, t.TypeName())])
  {
    if Lookup(after, names).Some? {
      LocateLookup(after, names);
    }
    if Lookup(before, names).Some? {
      LocateLookup(before, names);
    }
  }

  /** A member whose kind changed is reported with the old value's kind as
      `from_type` and the new one's as `to_type`; an old value that is not a
      member makes `diff` raise. */
  lemma TypeChangedRow(intended: bool, before: ApiMember, after: ApiMember, names: seq<string>, oldValue: Value)
    requires before.ModuleMember? && after.ModuleMember? && after.path == []
    requires WellFormed(after) && names != [] && Lookup(after, names).Some?
    ensures var t, p := Lookup(after, names).value.0, Lookup(after, names).value.1;
      var path, name := Location(names).0, Location(names).1;
      ClassifyBy(intended, before, after, Row(TypeChanges, p, MemberV(t), oldValue)) ==
        if oldValue.MemberV? then Success([TypeChanged(path, name, oldValue.member.TypeName(), t.TypeName())])
        else Failure(OldValueNotMember)
  {
    LocateLookup(after, names);
  }

  /** The event for a top-level member under key `k`. */
  function TopLevelEvent(k: string, m: ApiMember, added: bool): ApiChange {
    if added then Added("", k, m.TypeName()) else Removed("", k, m.TypeName())
  }

  /** One event per entry of a module's `members`, in insertion order. */
  function TopLevelEvents(ms: Dict<ApiMember>, added: bool): (r: seq<ApiChange>)
    ensures |r| == |ms|
    ensures forall i :: 0 <= i < |ms| ==> r[i] == TopLevelEvent(ms[i].0, ms[i].1, added)
  {
    seq(|ms|, i requires 0 <= i < |ms| => TopLevelEvent(ms[i].0, ms[i].1, added))
  }

  function EventsFor(keys: seq<string>, vs: seq<ApiMember>, added: bool): (r: seq<ApiChange>)
    requires |keys| == |vs|
    ensures |r| == |vs|
    ensures forall i :: 0 <= i < |vs| ==> r[i] == TopLevelEvent(keys[i], vs[i], added)
  {
    seq(|vs|, i requires 0 <= i < |vs| => TopLevelEvent(keys[i], vs[i], added))
  }

  lemma {:induction false} MemberEventsTopLevel(vs: seq<ApiMember>, keys: seq<string>, added: bool)
    requires |vs| == |keys|
    requires forall i :: 0 <= i < |vs| ==> vs[i].path == [keys[i]]
    ensures MemberEvents(vs, added) == Success(EventsFor(keys, vs, added))
  {
    var r := MemberEvents(vs, added);
    assert r.Success?;
    forall i | 0 <= i < |vs|
      ensures PathEvent(vs[i], added) == TopLevelEvent(keys[i], vs[i], added)
    {
      assert vs[i].path[..0] == [];
    }
    assert r.value == EventsFor(keys, vs, added);
  }

  /** A values-changed row at a path of length one (the differ saw no common
      member at all) reports every old top-level member as `Removed`, then
      every new one as `Added`, each under its key with an empty parent path,
      and nothing else. */
  lemma WholesaleReplacement(intended: bool, before: ApiMember, after: ApiMember, seg: Segment, value: Value, oldValue: Value)
    requires before.ModuleMember? && after.ModuleMember? && before.path == [] && after.path == []
    requires WellFormed(before) && WellFormed(after)
    ensures ClassifyBy(intended, before, after, Row(ValuesChanged, [seg], value, oldValue)) ==
      Success(TopLevelEvents(before.members, false) + TopLevelEvents(after.members, true))
  {
    var row := Row(ValuesChanged, [seg], value, oldValue);
    CascadeWholesale(before, after, row, ListGuard(intended, row.path, "bases"), ListGuard(intended, row.path, "decorators"));
    TopLevelPaths(before);
    TopLevelPaths(after);
    SameEvents(before.members, false);
    SameEvents(after.members, true);
  }

  /** The branch for a values-changed row at a one-segment path: the old
      members' events, then the new members'. */
  lemma CascadeWholesale(before: ApiMember, after: ApiMember, row: Row, bases: bool, decorators: bool)
    requires before.ModuleMember? && after.ModuleMember?
    requires bases || decorators ==> |row.path| > 1
    requires row.action == ValuesChanged && |row.path| == 1
    ensures Cascade(before, after, row, bases, decorators) ==
      Then(MemberEvents(Values(before.members), false), MemberEvents(Values(after.members), true))
  {
  }

  lemma SameEvents(ms: Dict<ApiMember>, added: bool)
    requires forall i :: 0 <= i < |ms| ==> ms[i].1.path == [ms[i].0]
    ensures MemberEvents(Values(ms), added) == Success(TopLevelEvents(ms, added))
  {
    var vs, keys := Values(ms), Keys(ms);
    MemberEventsTopLevel(vs, keys, added);
    assert EventsFor(keys, vs, added) == TopLevelEvents(ms, added);
  }

  lemma TopLevelPaths(m: ApiMember)
    requires m.ModuleMember? && m.path == [] && WellFormed(m)
    ensures forall i :: 0 <= i < |m.members| ==> m.members[i].1.path == [m.members[i].0]
  {
    forall i | 0 <= i < |m.members| ensures m.members[i].1.path == [m.members[i].0] {
      assert m.members[i].1.path == m.path + [m.members[i].0];
    }
  }

  /** `_get_member_from_path` on the differ path of a member returns that
      member, and stays on it when the path goes on into one of the member's
      own fields, or into an item of a list field. */
  lemma WalkIntoFields(m: ApiMember, names: seq<string>, field: string, i: int)
    requires Lookup(m, names).Some?
    ensures var t, p := Lookup(m, names).value.0, Lookup(m, names).value.1;
      && GetMemberFromPath(m, p) == Some(t)
      && (Field(t, field).Some? ==> GetMemberFromPath(m, p + [Key(field)]) == Some(t))
      && (Field(t, field).Some? && Field(t, field).value.ListV? && -|Field(t, field).value.items| <= i < |Field(t, field).value.items| ==>
            GetMemberFromPath(m, p + [Key(field), Index(i)]) == Some(t))
  {
    var t, p := Lookup(m, names).value.0, Lookup(m, names).value.1;
    LookupWalk(m, names);
    WalkAppend(MemberV(m), m, p, [Key(field)]);
    WalkAppend(MemberV(m), m, p, [Key(field), Index(i)]);
    if Field(t, field).Some? {
      var v := Field(t, field).value;
      assert Walk(MemberV(t), t, [Key(field)]) == Walk(v, t, []);
      assert Walk(MemberV(t), t, [Key(field), Index(i)]) == Walk(v, t, [Index(i)]);
    }
  }

  /** A values-changed row below the root: a changed base, else a changed
      decorator, else a changed property of the owner. */
  lemma ValuesChangedRow(intended: bool, before: ApiMember, after: ApiMember, row: Row, t: ApiMember)
    requires before.ModuleMember? && after.ModuleMember?
    requires |row.path| > 1 && Owner(before, row.path) == Success(t) && t.path != []
    requires row.action == ValuesChanged
    ensures var p, n := Locate(t).value.0, Locate(t).value.1;
      var pos := row.path[|row.path| - 1];
      ClassifyBy(intended, before, after, row) == Success([
        if ListGuard(intended, row.path, "bases") then ModifiedClassBase(p, n, pos, row.oldValue, row.value)
        else if ListGuard(intended, row.path, "decorators") then ModifiedDecorator(p, n, t.TypeName(), pos, row.oldValue, row.value)
        else Modified(p, n, t.TypeName(), pos, row.oldValue, row.value)])
  {
  }

  /** An added list item: a decorator when the list is `decorators`, else a
      base when it is `bases`. */
  lemma ItemAddedRow(intended: bool, before: ApiMember, after: ApiMember, row: Row, t: ApiMember)
    requires before.ModuleMember? && after.ModuleMember?
    requires |row.path| > 1 && Owner(before, row.path) == Success(t) && t.path != []
    requires row.action == IterableItemAdded
    ensures var p, n := Locate(t).value.0, Locate(t).value.1;
      var pos := row.path[|row.path| - 1];
      && (ListGuard(intended, row.path, "decorators") ==>
            ClassifyBy(intended, before, after, row) == Success([AddedDecorator(p, n, t.TypeName(), row.value, pos)]))
      && (!ListGuard(intended, row.path, "decorators") && ListGuard(intended, row.path, "bases") ==>
            ClassifyBy(intended, before, after, row) == Success([AddedClassBase(p, n, row.value, pos)]))
  {
  }

  /** A removed list item: a decorator when the list is `decorators`, else a
      base when it is `bases`. */
  lemma ItemRemovedRow(intended: bool, before: ApiMember, after: ApiMember, row: Row, t: ApiMember)
    requires before.ModuleMember? && after.ModuleMember?
    requires |row.path| > 1 && Owner(before, row.path) == Success(t) && t.path != []
    requires row.action == IterableItemRemoved
    ensures var p, n := Locate(t).value.0, Locate(t).value.1;
      var pos := row.path[|row.path| - 1];
      && (ListGuard(intended, row.path, "decorators") ==>
            ClassifyBy(intended, before, after, row) == Success([RemovedDecorator(p, n, t.TypeName(), row.value, pos)]))
      && (!ListGuard(intended, row.path, "decorators") && ListGuard(intended, row.path, "bases") ==>
            ClassifyBy(intended, before, after, row) == Success([RemovedClassBase(p, n, row.value, pos)]))
  {
  }

  /** A changed, added or removed item of a class's `bases` or of a
      decorator list is reported against the member that owns the list, with
      the item's index as its position, and never as a generic `Modified`. */
  lemma ListItemRows(intended: bool, before: ApiMember, after: ApiMember, names: seq<string>, field: string, i: int, value: Value, oldValue: Value)
    requires before.ModuleMember? && after.ModuleMember? && before.path == []
    requires WellFormed(before) && names != [] && Lookup(before, names).Some?
    requires field == "bases" || field == "decorators"
    requires Field(Lookup(before, names).value.0, field).Some?
    ensures var t, p := Lookup(before, names).value.0, Lookup(before, names).value.1;
      var path, name := Location(names).0, Location(names).1;
      var rowPath := p + [Key(field), Index(i)];
      && ClassifyBy(intended, before, after, Row(ValuesChanged, rowPath, value, oldValue)) ==
           Success([if field == "bases" then ModifiedClassBase(path, name, Index(i), oldValue, value)
                    else ModifiedDecorator(path, name, t.TypeName(), Index(i), oldValue, value)])
      && ClassifyBy(intended, before, after, Row(IterableItemAdded, rowPath, value, oldValue)) ==
           Success([if field == "bases" then AddedClassBase(path, name, value, Index(i))
                    else AddedDecorator(path, name, t.TypeName(), value, Index(i))])
      && ClassifyBy(intended, before, after, Row(IterableItemRemoved, rowPath, value, oldValue)) ==
           Success([if field == "bases" then RemovedClassBase(path, name, value, Index(i))
                    else RemovedDecorator(path, name, t.TypeName(), value, Index(i))])
  {
    var t, p := Lookup(before, names).value.0, Lookup(before, names).value.1;
    var rowPath := p + [Key(field), Index(i)];
    FieldOwner(before, names, field, Index(i));
    assert rowPath[|rowPath| - 2] == Key(field) && rowPath[|rowPath| - 1] == Index(i);
    ValuesChangedRow(intended, before, after, Row(ValuesChanged, rowPath, value, oldValue), t);
    ItemAddedRow(intended, before, after, Row(IterableItemAdded, rowPath, value, oldValue), t);
    ItemRemovedRow(intended, before, after, Row(IterableItemRemoved, rowPath, value, oldValue), t);
  }

  /** A row about a field of the member found under `names`, or about an
      item of that field, is owned by that member. */
  lemma FieldOwner(before: ApiMember, names: seq<string>, field: string, last: Segment)
    requires WellFormed(before) && before.path == [] && names != [] && Lookup(before, names).Some?
    requires Field(Lookup(before, names).value.0, field).Some?
    ensures var t, p := Lookup(before, names).value.0, Lookup(before, names).value.1;
      && Owner(before, p + [Key(field)]) == Success(t)
      && Owner(before, p + [Key(field), last]) == Success(t)
      && Locate(t) == Success(Location(names))
  {
    var t, p := Lookup(before, names).value.0, Lookup(before, names).value.1;
    LocateLookup(before, names);
    WalkIntoFields(before, names, field, 0);
    assert (p + [Key(field)])[..|p|] == p;
    assert (p + [Key(field), last])[..|p| + 1] == p + [Key(field)];
  }


  /** A changed scalar field `f` of a member (its annotation, value, default,
      return type, ...) is reported as `Modified` with `prop` set to `f`. The
      code as written gets this wrong for a member NAMED `bases` or
      `decorators`; as intended it holds for every member. */
  lemma FieldChangeRow(intended: bool, before: ApiMember, after: ApiMember, names: seq<string>, field: string, value: Value, oldValue: Value)
    requires before.ModuleMember? && after.ModuleMember? && before.path == []
    requires WellFormed(before) && names != [] && Lookup(before, names).Some?
    requires Field(Lookup(before, names).value.0, field).Some?
    requires intended || (names[|names| - 1] != "bases" && names[|names| - 1] != "decorators")
    ensures var t, p := Lookup(before, names).value.0, Lookup(before, names).value.1;
      var path, name := Location(names).0, Location(names).1;
      ClassifyBy(intended, before, after, Row(ValuesChanged, p + [Key(field)], value, oldValue)) ==
        Success([Modified(path, name, t.TypeName(), Key(field), oldValue, value)])
  {
    var t, p := Lookup(before, names).value.0, Lookup(before, names).value.1;
    var last := names[|names| - 1];
    LookupLast(before, names);
    var rowPath := p + [Key(field)];
    assert Owner(before, rowPath) == Success(t) && Locate(t) == Success(Location(names)) by {
      FieldOwner(before, names, field, Key(field));
    }
    ScalarFieldGuards(intended, p, last, field);
    ValuesChangedRow(intended, before, after, Row(ValuesChanged, rowPath, value, oldValue), t);
  }

  /** A row about a field `f` of a member ends in the key `f`, so neither
      list guard as intended holds; as written, neither holds unless the
      member is named `bases` or `decorators`. */
  lemma ScalarFieldGuards(intended: bool, p: seq<Segment>, name: string, field: string)
    requires p != [] && p[|p| - 1] == Key(name)
    requires intended || (name != "bases" && name != "decorators")
    ensures !ListGuard(intended, p + [Key(field)], "bases")
    ensures !ListGuard(intended, p + [Key(field)], "decorators")
  {
    var rowPath := p + [Key(field)];
    assert rowPath[|rowPath| - 2] == Key(name);
  }

  /** The differ path of a member ends with the member's own name. */
  lemma {:induction false} LookupLast(m: ApiMember, names: seq<string>)
    requires names != [] && Lookup(m, names).Some?
    ensures var p := Lookup(m, names).value.1;
      p != [] && p[|p| - 1] == Key(names[|names| - 1])
    decreases names
  {
    var c := LookupStep(m, names);
    if names[1..] != [] {
      LookupLast(c, names[1..]);
    }
  }

  /** `decorators = 1` changed to `decorators = 2`: the differ reports the
      attribute's `value` at path `members, decorators, value`. */
  function DecoratorsAttribute(v: Expr): ApiMember {
    ModuleMember([], [("decorators", AttributeMember(["decorators"], "", v))])
  }

  /** The code as written reads the attribute's value change as a changed
      decorator at position "value"; as intended it is a `Modified` of the
      attribute's `value`. */
  lemma NamedDecoratorsMisreported()
    ensures DecoratorsAttribute("1") == ModuleFromAst(Module([Assign([Name("decorators")], "1")]), AcceptAll)
    ensures var before, after := DecoratorsAttribute("1"), DecoratorsAttribute("2");
      var row := Row(ValuesChanged, [Key("members"), Key("decorators"), Key("value")], StrV("2"), StrV("1"));
      && ClassifyAsWritten(before, after, row) ==
           Success([ModifiedDecorator("", "decorators", "attribute", Key("value"), StrV("1"), StrV("2"))])
      && Classify(before, after, row) ==
           Success([Modified("", "decorators", "attribute", Key("value"), StrV("1"), StrV("2"))])
  {
    BuiltDecoratorsAttribute();
    var before, after := DecoratorsAttribute("1"), DecoratorsAttribute("2");
    var row := Row(ValuesChanged, [Key("members"), Key("decorators"), Key("value")], StrV("2"), StrV("1"));
    var t := AttributeMember(["decorators"], "", "1");
    assert Owner(before, row.path) == Success(t) by {
      DecoratorsAttributeOwner("1");
    }
    assert Locate(t) == Success(("", "decorators"));
    assert ListGuard(false, row.path, "decorators") && !ListGuard(false, row.path, "bases") by {
      assert row.path[|row.path| - 2] == Key("decorators");
    }
    assert !ListGuard(true, row.path, "decorators") && !ListGuard(true, row.path, "bases") by {
      assert row.path[|row.path| - 1] == Key("value");
    }
    ValuesChangedRow(false, before, after, row, t);
    ValuesChangedRow(true, before, after, row, t);
  }

  /** The row's owner is the attribute itself. */
  lemma DecoratorsAttributeOwner(v: Expr)
    ensures Owner(DecoratorsAttribute(v), [Key("members"), Key("decorators"), Key("value")]) ==
      Success(AttributeMember(["decorators"], "", v))
  {
    var before := DecoratorsAttribute(v);
    var t := AttributeMember(["decorators"], "", v);
    var names := ["decorators"];
    var p := [Key("members"), Key("decorators")];
    assert Keys(before.members) == names;
    assert Get(before.members, "decorators") == Some(t);
    assert names[1..] == [];
    assert Lookup(t, names[1..]) == Some((t, []));
    assert ChildDict(before) == Some(("members", before.members));
    assert p + [] == p;
    assert Lookup(before, names) == Some((t, p));
    LookupWalk(before, names);
    assert [Key("members"), Key("decorators"), Key("value")][..2] == p;
  }

  lemma BuiltDecoratorsAttribute()
    ensures DecoratorsAttribute("1") == ModuleFromAst(Module([Assign([Name("decorators")], "1")]), AcceptAll)
  {
    var s := Assign([Name("decorators")], "1");
    var targets := [Name("decorators")];
    assert [s][..0] == [] && targets[..0] == [];
    var a := AttributeFromAst(s, ["decorators"]);
    assert a == AttributeMember(["decorators"], "", "1");
    assert Children([], [], AcceptAll) == [];
    assert AssignTargets([], s, [], AcceptAll, []) == [];
    assert AssignTargets(targets, s, [], AcceptAll, []) == Put([], "decorators", a);
    assert Children([s], [], AcceptAll) == AddStmt(s, [], AcceptAll, []);
  }

  /** Rows no branch claims produce no event and raise nothing: an unknown
      action, a dictionary or type row whose value is not a member, a
      list-item row outside `bases` and `decorators`, a values-changed row at
      the root. */
  lemma UnmatchedRowsIgnored(intended: bool, before: ApiMember, after: ApiMember, row: Row)
    requires before.ModuleMember? && after.ModuleMember?
    ensures row.action.OtherAction? ==> ClassifyBy(intended, before, after, row) == Success([])
    ensures (&& (row.action == DictionaryItemAdded || row.action == DictionaryItemRemoved || row.action == TypeChanges)
             && !row.value.MemberV?) ==>
      ClassifyBy(intended, before, after, row) == Success([])
    ensures (&& (row.action == IterableItemAdded || row.action == IterableItemRemoved)
             && !ListGuard(intended, row.path, "bases")
             && !ListGuard(intended, row.path, "decorators")) ==>
      ClassifyBy(intended, before, after, row) == Success([])
    ensures row.action == ValuesChanged && row.path == [] ==> ClassifyBy(intended, before, after, row) == Success([])
  {
  }

  /** `diff` of two parsed modules on a root values-changed row: one
      `Removed` per name the old module declares and one `Added` per name the
      new one declares, nothing filtered out. */
  lemma RootRowFromSources(intended: bool, beforeAst: Module, afterAst: Module, seg: Segment, value: Value, oldValue: Value)
    ensures var b := ModuleFromAst(beforeAst, AcceptAll);
      var a := ModuleFromAst(afterAst, AcceptAll);
      && DiffModules(intended, beforeAst, afterAst, [Row(ValuesChanged, [seg], value, oldValue)]) ==
           Success(TopLevelEvents(b.members, false) + TopLevelEvents(a.members, true))
      && (forall k :: k in Keys(b.members) <==>
            k in ClassNames(beforeAst.body) || k in FunctionNames(beforeAst.body) || k in AttributeNames(beforeAst.body))
      && (forall k :: k in Keys(a.members) <==>
            k in ClassNames(afterAst.body) || k in FunctionNames(afterAst.body) || k in AttributeNames(afterAst.body))
  {
    var b := ModuleFromAst(beforeAst, AcceptAll);
    var a := ModuleFromAst(afterAst, AcceptAll);
    DiffSingle(intended, b, a, Row(ValuesChanged, [seg], value, oldValue));
    WholesaleReplacement(intended, b, a, seg, value, oldValue);
    DefaultFilterKeepsAll(beforeAst);
    DefaultFilterKeepsAll(afterAst);
  }
}
