/** The types of conditions (`compiler/expression.rs`) and of module values (`module/mod.rs`), and the values that have
    them. */
module Types {
  import opened Base
  import opened Values

  datatype Type = IntegerType | FloatType | BytesType | RegexType | BooleanType

  datatype ModuleType =
    | Scalar(ty: Type)
    | ObjectType(fields: map<string, ModuleType>)
    | ArrayType(item: ModuleType)
    | DictionaryType(value: ModuleType)
    | FunctionType(signatures: seq<seq<ModuleType>>, result: ModuleType)

  /** A value that a module has before any scan: it is used by the compiler. */
  datatype StaticValue =
    | StaticScalar(v: Value)
    | StaticObject(fields: map<string, StaticValue>)
    | StaticFun(id: nat, signatures: seq<seq<ModuleType>>, result: ModuleType)

  function TypeOf(v: Value): Type {
    match v
    case Integer(_) => IntegerType
    case Floating(_) => FloatType
    case Bytes(_) => BytesType
    case Regex(_) => RegexType
    case Boolean(_) => BooleanType
  }

  function TypesOf(vs: seq<Value>): (tys: seq<Type>)
    ensures |tys| == |vs| && forall k :: 0 <= k < |vs| ==> tys[k] == TypeOf(vs[k])
  {
    seq(|vs|, k requires 0 <= k < |vs| => TypeOf(vs[k]))
  }

  /** The result has the type, or is a poison that a well-typed condition may give. */
  predicate HasType(r: Result, ty: Type) {
    match r
    case Ok(v) => TypeOf(v) == ty
    case Err(p) => p != Stuck
  }

  predicate HaveTypes(rs: seq<Result>, tys: seq<Type>) {
    |rs| == |tys| && forall k :: 0 <= k < |rs| ==> HasType(rs[k], tys[k])
  }

  // ----- Calls -----

  predicate Accepts(signature: seq<ModuleType>, arguments: seq<Type>) {
    |signature| == |arguments| && forall k :: 0 <= k < |signature| ==> signature[k] == Scalar(arguments[k])
  }

  /** `check_all_arguments_types` */
  predicate Callable(signatures: seq<seq<ModuleType>>, arguments: seq<Type>) {
    || (signatures == [] && arguments == [])
    || exists k :: 0 <= k < |signatures| && Accepts(signatures[k], arguments)
  }

  // ----- Values that have a type -----

  /** A module value may be undefined whatever its type; an object may lack some of its fields. */
  ghost predicate Conforms(c: Scan, v: ModuleValue, t: ModuleType)
    decreases t, 0
  {
    v.MUndefined? ||
    match t
    case Scalar(ty) =>
      (match v
       case MInteger(_) => ty.IntegerType?
       case MFloat(_) => ty.FloatType?
       case MBytes(_) => ty.BytesType?
       case MRegex(_) => ty.RegexType?
       case MBoolean(_) => ty.BooleanType?
       case _ => false)
    case ObjectType(fields) =>
      v.Object? && forall f :: f in fields && f in v.fields ==> Conforms(c, v.fields[f], fields[f])
    case ArrayType(item) => v.Array? && forall k :: 0 <= k < |v.values| ==> Conforms(c, v.values[k], item)
    case DictionaryType(value) => v.Dictionary? && forall k :: 0 <= k < |v.entries| ==> Conforms(c, v.entries[k].1, value)
    case FunctionType(signatures, result) => v.Function? && Returns(c, v.id, signatures, result)
  }

  /** A function accepts the arguments of its signatures, and gives a value of its declared type. */
  ghost predicate Returns(c: Scan, id: nat, signatures: seq<seq<ModuleType>>, result: ModuleType)
    decreases result, 1
  {
    forall args: seq<Value> :: Callable(signatures, TypesOf(args)) ==>
      var r := c.call(id, ToModules(args));
      r.Some? ==> Conforms(c, r.value, result)
  }

  /** Static values are not regexes, and static doubles are numbers. */
  ghost predicate StaticConforms(c: Scan, s: StaticValue) {
    match s
    case StaticScalar(v) => !v.Regex? && (v.Floating? ==> !c.isNan(v.f))
    case StaticObject(fields) => forall f :: f in fields ==> StaticConforms(c, fields[f])
    case StaticFun(id, signatures, result) => Returns(c, id, signatures, result)
  }

  /** A static value as the scan sees it. */
  function OfStatic(s: StaticValue): ModuleValue {
    match s
    case StaticScalar(v) => ToModule(v)
    case StaticObject(fields) => Object(map f | f in fields :: OfStatic(fields[f]))
    case StaticFun(id, _, _) => Function(id)
  }
}
