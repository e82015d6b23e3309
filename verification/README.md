# difflog core in Dafny

difflog turns a parsed Python module into a tree of public API members. It
then classifies the structural edits between two such trees into typed change
events: a member added, removed or changed in kind, a property modified, a
base class or decorator added, removed or modified.

This project models three parts of the repository:

- **`difflog/members.py`**: the member tree with three dicts per namespace
  (`classes`, `attributes`, `functions`). Its name filter sees the namespace
  path and the name, and by default rejects private names. Absent text is
  `None`. The module is `Members`.
- **`difflog/parse_api.py`**: the member tree with one shared `members` dict
  per namespace. Its filter sees only the name and by default accepts
  everything. Absent text is `""`, classes record their bases, and every
  kind has a `type_name`. The module is `ParseApi`.
- **`difflog/diff.py`**: `_get_member_from_path` and the row-classification
  cascade of `diff`, over the `parse_api.py` tree. The module is `Diff`.

Supporting modules:

- `Wrappers`: `Option` and `Result`.
- `Dicts`: Python's insertion-ordered `dict` as a sequence of (key, value)
  pairs. Assigning to a present key rewrites its slot in place; a new key is
  appended.
- `PythonAst`: a closed Python syntax tree whose expressions are already
  rendered to text.
- `Signature`: the parameter layout both builders share. It covers
  right-aligned positional defaults, positions numbered across both
  positional groups, and keyword-only defaults paired one to one.

Loops that fill a dict or a list of events recurse on the prefix and then
handle the last element; the path walk of `_get_member_from_path` and the
parameter zips go front to back. A Python exception in `diff` is a
`Failure`, and the first failing row aborts the whole call, as the exception
would.

## Model

| member | source | states |
|---|---|---|
| Members.DefaultCheckNameChars | difflog/members.py:226-230 | The default filter keeps a name exactly when it is empty, does not start with `_`, or has at least two characters and ends with `_`. |
| Members.DefaultCheckNameExamples | difflog/members.py:226-230 | `__init__` and `public` pass; `_x`, `__x` and `_` are rejected. |
| Members.AttributeFromAst | difflog/members.py:49-61 | The annotation is `None` iff the statement is a plain assignment, and the value is `None` iff it is an annotated assignment without a value. An annotated assignment keeps its annotation and value. |
| Signature.Nones | difflog/members.py:172-174 | `[None] * n` has `max(n, 0)` entries, all `None`. |
| Signature.PaddedDefaultsAligned | difflog/members.py:172-174 | For a parameter list Python accepts, the padded defaults have one entry per positional slot. The first N−D entries are `None` and slot i ≥ N−D holds `defaults[i − (N−D)]`. |
| Signature.PaddedDefaultsCover | difflog/members.py:172-174 | For any input, the padded list is at least as long as the positional parameters, so the zips never drop a parameter. |
| Signature.Positional | difflog/members.py:176-195 | `enumerate(zip(args, defaults), start)` stops at the shorter list, and pair i gets position `start + i` and default `defaults[i]`. |
| Signature.KeywordOnlyParams | difflog/members.py:207-212 | Keyword-only parameter i takes `kw_defaults[i]`, where `None` means no default. |
| Signature.LayoutPositional | difflog/members.py:176-195 | The first p parameters are the positional-only ones at positions 0..p−1. The next a are the positional-or-keyword ones at positions p..p+a−1. Each carries the padded default of its slot. |
| Signature.PositionsDense | difflog/members.py:176-222 | Exactly the first N parameters have a position, and each one's position is its own index. |
| Signature.LayoutDefaults | difflog/members.py:172-195 | Every positional slot has the right-aligned default. |
| Signature.LayoutTail | difflog/members.py:197-222 | After the positional slots come `*args`, then keyword-only parameter i with `kw_defaults[i]`, then `**kwargs`, and nothing else. |
| Members.FunctionFromAst | difflog/members.py:160-224 | The function keeps its path. `is_async` holds iff the node is an async definition. Decorators and the return annotation are kept in source order. Every argument's path is the function path plus its name, and the dict's keys are exactly the parameter names. |
| Members.ArgumentsAreEntries | difflog/members.py:176-222 | With distinct parameter names, the `arguments` dict is the insertion sequence itself, in declaration order. |
| Members.FunctionPositionalArguments | difflog/members.py:172-195 | In the built `arguments` dict, the N positional parameters come first in declaration order. Each keeps its own annotation, is at position i, has its right-aligned default, and sits at the function path plus its name. No later argument has a position. |
| Members.FunctionTrailingArguments | difflog/members.py:197-222 | The built `arguments` dict ends with `*args` (no position, no default), keyword-only parameters with their own defaults, then `**kwargs`. |
| Members.ModuleFromAst | difflog/members.py:253-272 | The module namespace has the empty path and no decorators. Every member at every depth sits at its parent's path plus its key, and was accepted by the filter in force (the default one when none is given). |
| Members.ClassFromAst | difflog/members.py:271-282 | A class namespace keeps the path it is built at and its parent's filter, and records its decorators in order. Every member below it sits at its parent's path plus its key and passed the filter. |
| Members.Children | difflog/members.py:274-319 | The namespace built from a class or module body keeps the given path. Every member at every depth sits at its parent's path plus its key, no dict holds a key twice, and every key passed the filter. |
| Members.AddStmt | difflog/members.py:275-317 | One iteration of the loop over the body keeps that shape and leaves the decorators alone. |
| Members.AssignTargets | difflog/members.py:302-317 | The loop over the targets of one assignment keeps that shape and touches only the attribute dict. |
| Members.ChildrenKeys | difflog/members.py:274-317 | Each of the three dicts holds exactly the names of its own kind that the body declares and that the filter accepts for the namespace path. |
| Members.LaterDeclarationOverwrites | difflog/members.py:274-301 | A later class, function or annotated assignment replaces the earlier entry of the same name in its own kind's dict, in that entry's slot, and every other key of that dict keeps its value. The other two dicts are unchanged, so a class and a function may share a name. |
| Members.ChainedAssignment | difflog/members.py:302-317 | In `a = b = v`, every accepted target becomes its own attribute with no annotation and value `v`, keyed by the target's rendered text. Every other name keeps its earlier entry. |
| Dicts.GetPut | difflog/members.py:281-317 | After `d[k] = v`, looking up `k` gives `v`, and every other key gives what it gave before. |
| Dicts.PutInPlace | difflog/parse_api.py:281-311 | Assigning to a present key keeps the dict's length and rewrites only that key's slot. |
| Dicts.FromSeqGet | difflog/members.py:176-222 | A dict filled by successive assignments maps each key to the value of its last assignment. |
| ParseApi.TypeNameIdentifiesKind | difflog/parse_api.py:66-349 | Two members report the same `type_name` iff they are of the same class, across all nine classes. |
| ParseApi.AttributeFromAst | difflog/parse_api.py:69-75 | The annotation is `""` iff the statement is a plain assignment. The value is `""` iff it is an annotated assignment without a value. |
| ParseApi.FunctionFromAst | difflog/parse_api.py:194-199 | `is_async` holds iff the node is an async definition, and decorators are kept in source order. `returns` is `""` iff there is no return annotation. Every argument sits at the function path plus its name. |
| ParseApi.FunctionArguments | difflog/parse_api.py:201-268 | The same layout as in `members.py`, with absent text written as `""`. Positional parameter i keeps its annotation, has position i and the right-aligned default or `""`. Then come `*args`, keyword-only parameter i with `kw_defaults[i]` or `""`, and `**kwargs`, each with its own annotation. Every argument sits at the function path plus its name. |
| ParseApi.FunctionAgrees | difflog/parse_api.py:194-268 | A function member equals the `members.py` function member with every `None` turned into `""`. |
| ParseApi.AttributeAgrees | difflog/parse_api.py:69-75 | An attribute member equals the `members.py` attribute member with every `None` turned into `""`. |
| ParseApi.ModuleFromAst | difflog/parse_api.py:334-349 | The module has the empty path. Every member at every depth sits at its parent's path plus its key, is unique in its dict, and was accepted by the filter. |
| ParseApi.ClassFromAst | difflog/parse_api.py:314-331 | A nested class keeps its parent's filter and records its bases and decorators in source order. |
| ParseApi.Children | difflog/parse_api.py:279-311 | The `members` dict built from a body has unique keys the filter accepts. Each member sits at the namespace path plus its key, is a class, function or attribute, and is itself well formed. |
| ParseApi.AddStmt | difflog/parse_api.py:281-311 | One iteration of the loop over the body keeps that shape. |
| ParseApi.AssignTargets | difflog/parse_api.py:304-311 | The loop over the targets of one assignment keeps that shape. |
| ParseApi.ChildrenKeys | difflog/parse_api.py:281-311 | `members` holds exactly the names the body declares, of any kind, that the filter accepts. |
| ParseApi.DefaultFilterKeepsAll | difflog/parse_api.py:277 | With the default filter, every declared name is a key of the module. |
| ParseApi.LaterDeclarationReplaces | difflog/parse_api.py:281-311 | A later declaration replaces the earlier member of the same name whatever its kind, keeps the key's slot, and leaves every other name alone. |
| ParseApi.AssignTargetsGet | difflog/parse_api.py:304-311 | In a chained assignment, every accepted target becomes an attribute with annotation `""` and the shared value, replacing whatever held that name. |
| ParseApi.KeysAreUnion | difflog/parse_api.py:279-311 | With the same filter, the shared `members` keys are exactly the union of the keys of the three `members.py` dicts. |
| Diff.Field | difflog/parse_api.py:35-36 | `member[name]` returns the path and `type_name` of every member, and never returns a member. |
| Diff.Child | difflog/diff.py:122-127 | A step of the walk reaches a member exactly when it takes a key present in a `members` or `arguments` dict, and that member is the key's entry. An index into a list is valid exactly in Python's range, negative indices included. |
| Diff.Walk | difflog/diff.py:122-127 | An empty path reports the start. A walk that ends on a member reports that member as the last member seen. |
| Diff.GetMemberFromPath | difflog/diff.py:118-127 | An empty path gives the module itself. |
| Diff.WalkAppend | difflog/diff.py:122-127 | Walking `p + q` walks `p`, then walks `q` from where `p` stopped. |
| Diff.LookupWalk | difflog/diff.py:118-127 | Walking the differ path of the member found under a sequence of names returns that member. |
| Diff.WalkIntoFields | difflog/diff.py:118-127 | Continuing the path into one of that member's fields, or into an item of a list field, still returns the member. |
| Diff.LookupPath | difflog/parse_api.py:281-311 | In a well-formed tree, the member found under `names` has path `m.path + names`. |
| Diff.LocateLookup | difflog/diff.py:162-163 | In a well-formed module, the event location `(".".join(path[:-1]), path[-1])` of the member found under `names` is the dotted form of all but the last name, and the last name. |
| Diff.MemberEvents | difflog/diff.py:189-204 | The call raises iff some member has an empty path. Otherwise event i is `Removed` (or `Added`) of member i, with its dotted parent path, its last path segment as name, and its `type_name`. |
| Diff.FieldOwner | difflog/diff.py:210-305 | For a row about a field of a member, or about an item of that field, `_get_member_from_path(old_module, row.path[:-1])` finds that member, located at its names. |
| Diff.ClassifyBy | difflog/diff.py:155-307 | A row gives zero events, one event, or exactly \|old members\| + \|new members\| events. |
| Diff.Cascade | difflog/diff.py:155-307 | Whatever the values of the two list guards, the cascade gives zero events, one event, or exactly \|old members\| + \|new members\| events. |
| Diff.ClassifyAgrees | difflog/diff.py:205-235 | The corrected classifier agrees with the code as written on every row whose last segment is not a key. |
| Diff.AddedRemovedRows | difflog/diff.py:159-176 | An added member anywhere in the new tree gives `Added` with its dotted parent path, its name and its kind. A removed member in the old tree gives `Removed` the same way. |
| Diff.TypeChangedRow | difflog/diff.py:177-185 | A kind change gives `TypeChanged` from the old value's `type_name` to the new one's. An old value that is not a member raises. |
| Diff.WholesaleReplacement | difflog/diff.py:186-204 | A values-changed row at a one-segment path gives one `Removed` per old top-level member, then one `Added` per new one. Each is keyed by its name with an empty parent path, and there is nothing else. |
| Diff.ListItemRows | difflog/diff.py:205-305 | A changed, added or removed item i of `bases` or `decorators` is reported against the member owning the list, at position i, and never as `Modified`. |
| Diff.FieldChangeRow | difflog/diff.py:236-247 | A changed scalar field `f` of a member gives `Modified` with `prop` = `f`. With the corrected guard this holds for every member. The code as written only gets it right when the member is not named `bases` or `decorators`. |
| Diff.UnmatchedRowsIgnored | difflog/diff.py:306-307 | Rows no branch claims give no event and raise nothing. |
| Diff.Diff | difflog/diff.py:153-309 | `diff` succeeds iff every row classifies without raising. With `intended` false every row goes through the code as written; with `intended` true, through the corrected list guards. |
| Diff.DiffAppend | difflog/diff.py:155-309 | For either guard, the events of concatenated rows are the first part's events followed by the second's, and an error in the first part wins. |
| Diff.DiffAgrees | difflog/diff.py:155-309 | On every batch of rows none of which ends in a key, `diff` as written and corrected give the same result. |
| Diff.RootRowFromSources | difflog/diff.py:144-204 | For two parsed modules and either guard, a root values-changed row reports every name declared in the old module as `Removed` and every name declared in the new module as `Added`. |
| Diff.NamedDecoratorsMisreported | difflog/diff.py:220-235 | Classification of the row produced when the attribute `decorators = 1` becomes `decorators = 2`. As written, the code reports a `ModifiedDecorator` at position `"value"`. The corrected classifier reports `Modified` of the attribute's `value`. |

## Left out

- The structural differ (DeepDiff, `Delta`, `to_flat_rows`, `exclude_regex_paths`) is a third-party library, so its output rows are an input to `Diff.Diff`. Symmetry and reflexivity of the differ are therefore not stated.
- `Diff.Diff` and `Diff.DiffModules` take a flag choosing the list guard: `false` is the code as written, `true` the correction under Findings. Only the corrected cascade is promised to report a changed field of a member named `bases` or `decorators` as `Modified`.
- `ast.parse` and `ast.unparse` are foreign code. Every expression is pre-rendered text, never empty, and `diff` on source text is modelled from the parsed module on (`Diff.DiffModules`).
- `ast.iter_child_nodes` also yields a class's base, keyword and decorator expressions. None of them is a statement the builders act on, so only the body is walked. Class keywords such as `metaclass=` are not modelled.
- `lineno` and `end_lineno` in `members.py` are diagnostics only.
- The `logging.error` call of the unmatched branch is a side effect; the row simply gives no event.
- The `__main__` blocks, `difflog/__main__.py` (command line, sorting, printing) and `difflog/git_changed.py` (git subprocesses) are input/output.
- Diff.Field: `getattr` on a method or on a dunder attribute is modelled as a missing attribute. The AST node and the name filter are opaque values.
- Members.FunctionPositionalArguments, Members.FunctionTrailingArguments and ParseApi.FunctionArguments assume distinct parameter names and `len(defaults) <= N`. Python's grammar rejects more defaults than positional parameters, and CPython's compiler rejects duplicate parameter names; with duplicates a later name would overwrite an earlier slot.
- Diff.AddedRemovedRows, Diff.ListItemRows and Diff.FieldChangeRow are stated for rows whose path addresses a member of a well-formed tree, which is what the builder produces. Any other row is still classified by `Diff.ClassifyBy`.
- The model follows the code in these respects:
  - wholesale replacement is expanded only for a one-segment row path, i.e. the module's own `members`;
  - a tuple target `a, b = ...` becomes one attribute keyed by its rendered text, which `ast.unparse` writes as `"(a, b)"`;
  - `members.py` records no class bases;
  - there are no per-property event variants: every scalar change is the generic `Modified` with `prop` set.

## Findings

| source | as written | input that shows it | evidently intended | confidence | as-written member | corrected member |
|---|---|---|---|---|---|---|
| difflog/diff.py:205-235 | The value-changed list branches test only `row.path[-2] == "bases"` or `"decorators"`. | Module `decorators = 1` changed to `decorators = 2`. The row is values_changed at `members, decorators, value`, and the code reports `ModifiedDecorator` at position `"value"` with type `attribute`. | The branches are meant for items of the list fields, whose last segment is an index. The row should be `Modified` of the attribute's `value`. | medium, not executed | Diff.NamedDecoratorsMisreported | Diff.FieldChangeRow |
