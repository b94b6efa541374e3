/** The types of the constraint language. */
module Types {
  import opened Options

  datatype Type =
    | Bottom
    | Bool
    | Int
    | Fe
    | String
    | Column
    | Inter
    | Expression
    | Array(base: Type, length: Option<nat>)
    | Tuple(items: seq<Type>)
    | Function(params: seq<Type>, value: Type)
    | TypeVar(name: string)
    | NamedType(path: string, args: TypeArgs)

  /** The generic arguments of a named type, if any. */
  datatype TypeArgs = NoArgs | Args(types: seq<Type>)

  /** The direct sub-types of a type. */
  function Children(t: Type): (r: seq<Type>)
    ensures forall c :: c in r ==> c < t
  {
    match t
    case Array(b, _) => [b]
    case Tuple(items) => items
    case Function(ps, v) => ps + [v]
    case NamedType(_, Args(args)) => args
    case _ => []
  }

  /** Simultaneous substitution of type variables; replacements are not substituted again. */
  function SubstituteTypeVars(m: map<string, Type>, t: Type): Type
    decreases t
  {
    match t
    case TypeVar(n) => if n in m then m[n] else t
    case Array(b, l) => Array(SubstituteTypeVars(m, b), l)
    case Tuple(items) => Tuple(SubstituteAll(m, items))
    case Function(ps, v) => Function(SubstituteAll(m, ps), SubstituteTypeVars(m, v))
    case NamedType(n, Args(args)) => NamedType(n, Args(SubstituteAll(m, args)))
    case _ => t
  }

  function SubstituteAll(m: map<string, Type>, ts: seq<Type>): (r: seq<Type>)
    ensures |r| == |ts|
    decreases ts
  {
    if ts == [] then [] else [SubstituteTypeVars(m, ts[0])] + SubstituteAll(m, ts[1..])
  }
}
