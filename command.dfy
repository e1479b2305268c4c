/**
 * The solver's command line: a fixed prefix of policy flags, then the
 * optional `--ra`, `--dec`, `--radius` and scale flags, each present exactly
 * when its parameter was given.
 */
module Command {
  import opened Wrappers
  import opened Arguments

  /** The invariant flags every run of the solver gets, in order. */
  const PREFIX: seq<string> := [
    "solve-field", "-p", "-O", "--no-verify", "--no-remove-lines",
    "--depth", "20,30,40", "--resort", "--downsample", "2",
    "--match", "none", "--rdls", "none", "--corr", "none",
    "--index-xyls", "none", "--solved", "none", "--temp-axy"]

  /**
   * What `str(v)` gives. A str is its own text; any other value is rendered by
   * `show`, which stands for Python's formatting and is supplied by the caller.
   */
  function Text(show: Value -> string, v: Value): string
  {
    if v.Str? then v.s else show(v)
  }

  function Count(b: bool): nat
  {
    if b then 1 else 0
  }

  /** A flag and its value, or nothing when the value is absent. */
  function OptionPair(flag: string, value: Option<string>): seq<string>
  {
    match value
    case Some(v) => [flag, v]
    case None => []
  }

  function ScaleItems(scale: ScaleArg): seq<Value>
  {
    match scale
    case ScaleTuple(xs) => xs
    case ScaleList(xs) => xs
  }

  /** `scale[0]` and `scale[1]` exist: otherwise building the command raises IndexError. */
  predicate ScaleIndexable(req: SolveRequest)
  {
    req.scale.None? || |ScaleItems(req.scale.value)| >= 2
  }

  function ScaleBlock(show: Value -> string, items: seq<Value>): seq<string>
    requires |items| >= 2
  {
    ["--scale-low", Text(show, items[0]), "--scale-high", Text(show, items[1]),
     "--scale-unit", "arcsecperpix"]
  }

  /** Where the `--dec` pair starts: right after the prefix and the `--ra` pair, if any. */
  function DecAt(req: SolveRequest): nat
  {
    |PREFIX| + 2 * Count(req.ra.Some?)
  }

  function RadiusAt(req: SolveRequest): nat
  {
    DecAt(req) + 2 * Count(req.dec.Some?)
  }

  function ScaleAt(req: SolveRequest): nat
  {
    RadiusAt(req) + 2 * Count(req.radius.Some?)
  }

  function RadiusPair(show: Value -> string, req: SolveRequest): (r: seq<string>)
    ensures |r| == 2 * Count(req.radius.Some?)
  {
    match req.radius
    case Some(x) => ["--radius", show(Float(x))]
    case None => []
  }

  function ScalePart(show: Value -> string, req: SolveRequest): (r: seq<string>)
    requires ScaleIndexable(req)
    ensures |r| == 6 * Count(req.scale.Some?)
  {
    if req.scale.Some? then ScaleBlock(show, ScaleItems(req.scale.value)) else []
  }

  /**
   * The command template of a validated request: IndexError exactly when a
   * scale with fewer than two items was given, and otherwise the prefix and
   * the blocks of the parameters that are present, in the order ra, dec,
   * radius, scale.
   */
  function Template(show: Value -> string, req: SolveRequest): (r: Result<seq<string>, Error>)
    ensures r.Err? <==> !ScaleIndexable(req)
    ensures r.Err? ==> r.error == IndexError
  {
    if !ScaleIndexable(req) then Err(IndexError)
    else
      Ok(PREFIX + OptionPair("--ra", req.ra) + OptionPair("--dec", req.dec)
         + RadiusPair(show, req) + ScalePart(show, req))
  }

  /**
   * Every successful template starts with the 21 prefix tokens; each optional
   * block sits at its own offset, and one whose parameter is absent takes no
   * room, so the length is 21 + 2[ra] + 2[dec] + 2[radius] + 6[scale].
   */
  lemma {:induction false} TemplateLayout(show: Value -> string, req: SolveRequest)
    requires Template(show, req).Ok?
    ensures var cmd := Template(show, req).value;
      && |PREFIX| == 21
      && |cmd| == |PREFIX| + 2 * Count(req.ra.Some?) + 2 * Count(req.dec.Some?)
                   + 2 * Count(req.radius.Some?) + 6 * Count(req.scale.Some?)
      && cmd[..|PREFIX|] == PREFIX
      && (req.ra.Some? ==> cmd[|PREFIX|..DecAt(req)] == ["--ra", req.ra.value])
      && (req.dec.Some? ==> cmd[DecAt(req)..RadiusAt(req)] == ["--dec", req.dec.value])
      && (req.radius.Some? ==>
            cmd[RadiusAt(req)..ScaleAt(req)] == ["--radius", show(Float(req.radius.value))])
      && (req.scale.Some? ==>
            var items := ScaleItems(req.scale.value);
            cmd[ScaleAt(req)..] == ["--scale-low", Text(show, items[0]), "--scale-high",
                                    Text(show, items[1]), "--scale-unit", "arcsecperpix"])
  {
    var a := OptionPair("--ra", req.ra);
    var b := OptionPair("--dec", req.dec);
    var c := RadiusPair(show, req);
    var d := ScalePart(show, req);
    assert Template(show, req).value == PREFIX + a + b + c + d;
    assert |a| == 2 * Count(req.ra.Some?) && |b| == 2 * Count(req.dec.Some?);
    Pieces(PREFIX, a, b, c, d);
  }

  /** Each of five concatenated pieces can be sliced back out at its offset. */
  lemma Pieces<T>(p: seq<T>, a: seq<T>, b: seq<T>, c: seq<T>, d: seq<T>)
    ensures var s, i, j, k := p + a + b + c + d, |p| + |a|, |p| + |a| + |b|, |p| + |a| + |b| + |c|;
      && |s| == k + |d|
      && s[..|p|] == p && s[|p|..i] == a && s[i..j] == b && s[j..k] == c && s[k..] == d
  {
    var s, i, j, k := p + a + b + c + d, |p| + |a|, |p| + |a| + |b|, |p| + |a| + |b| + |c|;
    assert s == (p + a) + (b + (c + d));
    assert s[..|p|] == p;
    assert s[|p|..i] == a;
    assert s[i..j] == b;
    assert s[j..k] == c;
    assert s[k..] == d;
  }

  /** Builds the command as `solve_field` does, one append after another. */
  method BuildCommand(show: Value -> string, req: SolveRequest) returns (r: Result<seq<string>, Error>)
    ensures r == Template(show, req)
  {
    var cmd := PREFIX;
    if req.ra.Some? {
      cmd := cmd + ["--ra"];
      cmd := cmd + [req.ra.value];
    }
    assert cmd == PREFIX + OptionPair("--ra", req.ra);
    if req.dec.Some? {
      cmd := cmd + ["--dec"];
      cmd := cmd + [req.dec.value];
    }
    assert cmd == PREFIX + OptionPair("--ra", req.ra) + OptionPair("--dec", req.dec);
    if req.radius.Some? {
      cmd := cmd + ["--radius"];
      cmd := cmd + [show(Float(req.radius.value))];
    }
    assert cmd == PREFIX + OptionPair("--ra", req.ra) + OptionPair("--dec", req.dec)
                  + RadiusPair(show, req);
    if req.scale.Some? {
      var items := ScaleItems(req.scale.value);
      if |items| < 2 {
        return Err(IndexError);
      }
      var tmp := ["--scale-low", Text(show, items[0]), "--scale-high",
                  Text(show, items[1]), "--scale-unit", "arcsecperpix"];
      cmd := cmd + tmp;
    }
    assert cmd == PREFIX + OptionPair("--ra", req.ra) + OptionPair("--dec", req.dec)
                  + RadiusPair(show, req) + ScalePart(show, req);
    r := Ok(cmd);
  }
}
