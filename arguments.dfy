/**
 * The arguments of `solve_field` as Python values, and the ordered series of
 * `isinstance` checks that either turns them into a typed request or raises
 * TypeError naming the first parameter that failed.
 */
module Arguments {
  import opened Wrappers

  /**
   * A Python argument, by its runtime type. `Other` is any other type (bool,
   * dict, ...) and keeps only its name; a float is a finite real, so NaN,
   * the infinities and the sign of zero are not represented.
   */
  datatype Value =
    | PyNone
    | Str(s: string)
    | List(items: seq<Value>)
    | Tuple(items: seq<Value>)
    | Float(x: real)
    | Int(i: int)
    | Other(typeName: string)

  /** The parameters that are type-checked, each named after its keyword. */
  datatype Param = Name | Ra | Dec | Radius | Scale | Suffix

  /** TypeError names the parameter whose check failed; IndexError is `scale[0]` or `scale[1]` out of range. */
  datatype Error = TypeError(param: Param) | IndexError

  /** The order in which the checks run. */
  const CHECK_ORDER: seq<Param> := [Name, Ra, Dec, Radius, Scale, Suffix]

  const DEFAULT_SUFFIX: string := "_ast"

  /** One call's arguments; `wcsOutput` is only ever tested for truth, so it is a bool. */
  datatype SolveArgs = SolveArgs(
    name: Value, ra: Value, dec: Value, radius: Value, scale: Value,
    suffix: Value, wcsOutput: bool)

  /** A call that passes only `name`, every other keyword at its default. */
  function WithDefaults(name: Value): SolveArgs
  {
    SolveArgs(name, PyNone, PyNone, PyNone, PyNone, Str(DEFAULT_SUFFIX), false)
  }

  /** The `name` argument once it has passed its check: one path or a list (of anything). */
  datatype NameArg = Single(path: string) | Many(items: seq<Value>)

  /** The `scale` argument once it has passed its check; its length is not checked. */
  datatype ScaleArg = ScaleTuple(items: seq<Value>) | ScaleList(items: seq<Value>)

  /** The arguments after every check has passed, with their types made explicit. */
  datatype SolveRequest = SolveRequest(
    name: NameArg, ra: Option<string>, dec: Option<string>, radius: Option<real>,
    scale: Option<ScaleArg>, suffix: string, wcsOutput: bool)

  /** Whether the check for parameter `p` lets `args` through. */
  predicate Accepts(args: SolveArgs, p: Param)
  {
    match p
    case Name => args.name.Str? || args.name.List?
    case Ra => args.ra.PyNone? || args.ra.Str?
    case Dec => args.dec.PyNone? || args.dec.Str?
    case Radius => args.radius.PyNone? || args.radius.Float?
    case Scale => args.scale.PyNone? || args.scale.Tuple? || args.scale.List?
    case Suffix => args.suffix.Str?
  }

  /** The check at position `i` of CHECK_ORDER is the first one to fail. */
  predicate FailsFirst(args: SolveArgs, i: nat)
    requires i < |CHECK_ORDER|
  {
    !Accepts(args, CHECK_ORDER[i]) && forall j :: 0 <= j < i ==> Accepts(args, CHECK_ORDER[j])
  }

  /**
   * The checks, in the order `solve_field` runs them. The result is Ok
   * exactly when every check passes, and otherwise the TypeError of the
   * first check that fails.
   */
  function Validate(args: SolveArgs): (r: Result<SolveRequest, Error>)
    ensures r.Ok? <==> forall p: Param :: Accepts(args, p)
    ensures r.Err? ==> r.error.TypeError?
  {
    if !Accepts(args, Name) then Err(TypeError(Name))
    else if !Accepts(args, Ra) then Err(TypeError(Ra))
    else if !Accepts(args, Dec) then Err(TypeError(Dec))
    else if !Accepts(args, Radius) then Err(TypeError(Radius))
    else if !Accepts(args, Scale) then Err(TypeError(Scale))
    else if !Accepts(args, Suffix) then Err(TypeError(Suffix))
    else
      Ok(SolveRequest(
        if args.name.Str? then Single(args.name.s) else Many(args.name.items),
        if args.ra.Str? then Some(args.ra.s) else None,
        if args.dec.Str? then Some(args.dec.s) else None,
        if args.radius.Float? then Some(args.radius.x) else None,
        if args.scale.Tuple? then Some(ScaleTuple(args.scale.items))
        else if args.scale.List? then Some(ScaleList(args.scale.items))
        else None,
        args.suffix.s,
        args.wcsOutput))
  }

  /** Validation fails with the TypeError of a parameter exactly when that parameter's check is the first to fail. */
  lemma {:induction false} ValidateReportsFirstFailure(args: SolveArgs, i: nat)
    requires i < |CHECK_ORDER|
    ensures Validate(args) == Err(TypeError(CHECK_ORDER[i])) <==> FailsFirst(args, i)
  {
    var p := CHECK_ORDER[i];
    assert CHECK_ORDER[0] == Name && CHECK_ORDER[1] == Ra && CHECK_ORDER[2] == Dec;
    assert CHECK_ORDER[3] == Radius && CHECK_ORDER[4] == Scale && CHECK_ORDER[5] == Suffix;
    if FailsFirst(args, i) {
      assert forall j :: 0 <= j < i ==> Accepts(args, CHECK_ORDER[j]);
    }
  }

  /** The Python arguments a request stands for. */
  function ArgsOf(req: SolveRequest): SolveArgs
  {
    SolveArgs(
      match req.name case Single(p) => Str(p) case Many(xs) => List(xs),
      match req.ra case Some(s) => Str(s) case None => PyNone,
      match req.dec case Some(s) => Str(s) case None => PyNone,
      match req.radius case Some(x) => Float(x) case None => PyNone,
      match req.scale
      case Some(ScaleTuple(xs)) => Tuple(xs)
      case Some(ScaleList(xs)) => List(xs)
      case None => PyNone,
      Str(req.suffix),
      req.wcsOutput)
  }

  /** Validation loses nothing: it succeeds with `req` exactly on the arguments `req` stands for. */
  lemma ValidateRoundTrip(args: SolveArgs, req: SolveRequest)
    ensures Validate(args) == Ok(req) <==> args == ArgsOf(req)
  {
    if args == ArgsOf(req) {
      match req.scale {
        case None =>
        case Some(sc) => match sc { case ScaleTuple(_) => case ScaleList(_) => }
      }
      match req.name { case Single(_) => case Many(_) => }
    }
  }

  /** `radius` must be a float exactly: an int radius is refused once name, ra and dec pass. */
  lemma IntRadiusRejected(args: SolveArgs, i: int)
    requires args.radius == Int(i)
    requires Accepts(args, Name) && Accepts(args, Ra) && Accepts(args, Dec)
    ensures Validate(args) == Err(TypeError(Radius))
  {
  }

  /** Neither the length of `scale` nor the contents or length of `name` are checked. */
  lemma UncheckedShapesAccepted(scale: seq<Value>)
    ensures Validate(SolveArgs(List([]), PyNone, PyNone, PyNone, Tuple(scale), Str(""), false)).Ok?
  {
  }

  /** A call naming only one path passes every check and keeps the default suffix with WCS output off. */
  lemma DefaultsAccepted(path: string)
    ensures Validate(WithDefaults(Str(path)))
            == Ok(SolveRequest(Single(path), None, None, None, None, "_ast", false))
  {
  }
}
