/** The part of Python's `ast` that the member builders look at. Every
    expression subtree arrives already rendered by `ast.unparse`, which never
    yields empty text; statements of any other kind are `Other`. */
module PythonAst {
  import opened Wrappers

  /** Canonical source text of an expression, as `ast.unparse` renders it. */
  type Expr = s: string | s != [] witness "0"

  /** `ast.arg`: one parameter name with its optional annotation. */
  datatype Arg = Arg(arg: string, annotation: Option<Expr>)

  /** `ast.arguments`. `defaults` belong to the combined positional-only and
      positional-or-keyword list; `kwDefaults` holds `None` for a
      keyword-only parameter without a default. */
  datatype Arguments = Arguments(
    posonlyargs: seq<Arg>,
    args: seq<Arg>,
    vararg: Option<Arg>,
    kwonlyargs: seq<Arg>,
    kwDefaults: seq<Option<Expr>>,
    kwarg: Option<Arg>,
    defaults: seq<Expr>)

  /** An assignment target: a plain name, or anything else (tuple, attribute,
      subscript) carried as its rendered text. */
  datatype Target = Name(id: string) | Complex(text: Expr)

  datatype Stmt =
    | ClassDef(name: string, bases: seq<Expr>, body: seq<Stmt>, decoratorList: seq<Expr>)
    | FunctionDef(name: string, args: Arguments, returnAnnotation: Option<Expr>, decoratorList: seq<Expr>)
    | AsyncFunctionDef(name: string, args: Arguments, returnAnnotation: Option<Expr>, decoratorList: seq<Expr>)
    | Assign(targets: seq<Target>, rhs: Expr)
    | AnnAssign(target: Target, annotation: Expr, value: Option<Expr>)
    | Other
  {
    predicate IsFunction() {
      FunctionDef? || AsyncFunctionDef?
    }
  }

  datatype Module = Module(body: seq<Stmt>)

  /** `ast.unparse(target)`: a plain name renders as itself. */
  function Unparse(t: Target): string {
    match t
    case Name(id) => id
    case Complex(text) => text
  }

  /** The names the class definitions of `body` declare, in order. */
  function ClassNames(body: seq<Stmt>): seq<string> {
    if body == [] then []
    else
      var s := body[|body| - 1];
      ClassNames(body[..|body| - 1]) + (if s.ClassDef? then [s.name] else [])
  }

  /** The names the (async) function definitions of `body` declare, in order. */
  function FunctionNames(body: seq<Stmt>): seq<string> {
    if body == [] then []
    else
      var s := body[|body| - 1];
      FunctionNames(body[..|body| - 1]) + (if s.IsFunction() then [s.name] else [])
  }

  /** The rendered targets of the assignments of `body`, in order. */
  function AttributeNames(body: seq<Stmt>): seq<string> {
    if body == [] then []
    else
      var s := body[|body| - 1];
      AttributeNames(body[..|body| - 1]) +
        (match s
         case AnnAssign(t, _, _) => [Unparse(t)]
         case Assign(ts, _) => seq(|ts|, i requires 0 <= i < |ts| => Unparse(ts[i]))
         case _ => [])
  }
}
