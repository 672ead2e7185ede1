/** The two request handlers of backend/main.py as pure functions.

    The symbolic engine (`sympify` then `solve`, lines 59-61) and the
    numeric minimizer (SciPy's `minimize` over the `eval`-built objective,
    lines 97-103) are parameters: the model fixes what each handler hands
    them and what it does with their answers, not how they compute. Any
    exception becomes an HTTP 400 response whose detail is the failure.
 */
module Handlers {
  import opened Text
  import opened Outcomes
  import opened Notation
  import opened Formatter

  /** The status code of every failure (lines 74-75 and 128-129). */
  const BadRequest: nat := 400

  /** `ComputationResult`: a status, the handler's result record, and LaTeX. */
  datatype Computation<R> = Computation(status: string, result: R, latexFormat: string)

  /** What a handler sends back: a computation, or the `HTTPException` raised
      from a caught failure. */
  datatype Response<R> =
    | Respond(body: Computation<R>)
    | HttpError(statusCode: nat, detail: Failure)

  // ---------------------------------------------------------------- /solve-equation

  /** The solve result record: the roots as text, and the request's equation. */
  datatype SolveResult = SolveResult(solutions: seq<string>, originalEquation: string)

  /** `/solve-equation`: normalize the equation, let `engine` parse and solve
      the normalized text for `x`, then report the roots and their LaTeX. */
  function SolveEquation(equation: string, engine: string -> Result<seq<string>>): (resp: Response<SolveResult>)
    ensures resp.HttpError? ==> resp.statusCode == BadRequest
    ensures Count(equation, '=') >= 2 ==>
      resp == HttpError(BadRequest, TooManyValues(2, Count(equation, '=') + 1))
    ensures resp.Respond? <==>
      NormalizeEquation(equation).Ok? && engine(NormalizeEquation(equation).value).Ok?
    ensures resp.Respond? ==>
      var roots := engine(NormalizeEquation(equation).value).value;
      resp.body.status == "success"
      && resp.body.result.solutions == roots
      && resp.body.result.originalEquation == equation
      && resp.body.latexFormat == FormatSolutions(roots)
    ensures NormalizeEquation(equation).Ok? && engine(NormalizeEquation(equation).value).Err? ==>
      resp == HttpError(BadRequest, engine(NormalizeEquation(equation).value).failure)
  {
    match NormalizeEquation(equation)
    case Err(f) => HttpError(BadRequest, f)
    case Ok(text) =>
      match engine(text)
      case Err(f) => HttpError(BadRequest, f)
      case Ok(roots) =>
        Respond(Computation("success", SolveResult(roots, equation), FormatSolutions(roots)))
  }

  /** Equations that normalize to the same text get the same answer: the same
      failure, or the same roots and LaTeX, whatever the engine. Only the echoed
      equation can differ, and it is each request's own. */
  lemma {:induction false} SolveSeesOnlyNormalForm(e1: string, e2: string, engine: string -> Result<seq<string>>)
    ensures NormalizeEquation(e1) == NormalizeEquation(e2) ==>
      var r1, r2 := SolveEquation(e1, engine), SolveEquation(e2, engine);
      && r1.HttpError? == r2.HttpError?
      && (r1.HttpError? ==> r1 == r2)
      && (r1.Respond? ==>
            r1.body.result.solutions == r2.body.result.solutions
            && r1.body.latexFormat == r2.body.latexFormat
            && r1.body.result.originalEquation == e1 && r2.body.result.originalEquation == e2)
  {
  }

  /** The request `x^2-4=0`, given by its two sides: the engine is
      handed `(x**2-4)-(0)`, and roots `-2`, `2` come back labelled `x_{1}`
      and `x_{2}`. */
  lemma {:induction false} SolveExample(a: string, b: string, engine: string -> Result<seq<string>>)
    requires a == "x^2-4" && b == "0"
    requires engine("(x**2-4)-(0)") == Ok(["-2", "2"])
    ensures SolveEquation(a + "=" + b, engine) ==
      Respond(Computation("success", SolveResult(["-2", "2"], a + "=" + b), "x_{1} = -2 \\quad x_{2} = 2"))
  {
    assert NormalizeEquation(a + "=" + b) == Ok("(x**2-4)-(0)") by { NormalizeEquationExample(a, b); }
    assert FormatSolutions(["-2", "2"]) == "x_{1} = -2 \\quad x_{2} = 2" by { FormatExample(["-2", "2"]); }
  }

  // ---------------------------------------------------------------- /optimize-function

  /** The search interval `(low, high)`; the request's default is `(-10, 10)`
      (line 25). Floats are modelled as reals. */
  datatype Domain = Domain(low: real, high: real)

  const DefaultDomain: Domain := Domain(-10.0, 10.0)

  /** The starting point `x0=0` of both searches (lines 100 and 103). */
  const InitialGuess: real := 0.0

  /** The function handed to `minimize`: the normalized expression evaluated at
      `x`, negated for the maximum search (line 103). */
  datatype Objective = Objective(expression: string, negated: bool)

  /** What `minimize` reports: the point found (`x[0]`) and the objective's value there. */
  datatype Minimum = Minimum(x: real, fun: real)

  /** A reported extremum: `{"point": ..., "value": ...}`. */
  datatype Extremum = Extremum(point: real, value: real)

  datatype OptimizeResult = OptimizeResult(minimum: Extremum, maximum: Extremum, originalFunction: string)

  /** `/optimize-function`: normalize the function (no `=` handling), minimize
      it and its negation from `x0 = 0` within the domain, and report both
      extrema, the request's function and the LaTeX, which is rendered from the
      two extrema alone. The first failing search decides the error. */
  function OptimizeFunction(
    func: string,
    domain: Domain,
    minimize: (Objective, real, Domain) -> Result<Minimum>,
    render: (Extremum, Extremum) -> string
  ): (resp: Response<OptimizeResult>)
    ensures resp.HttpError? ==> resp.statusCode == BadRequest
    ensures
      var expr := NormalizeFunction(func);
      var lo, hi := minimize(Objective(expr, false), InitialGuess, domain),
                    minimize(Objective(expr, true), InitialGuess, domain);
      && (resp.Respond? <==> lo.Ok? && hi.Ok?)
      && (lo.Err? ==> resp.detail == lo.failure)
      && (lo.Ok? && hi.Err? ==> resp.detail == hi.failure)
      && (resp.Respond? ==>
            resp.body.status == "success"
            && resp.body.result.minimum == Extremum(lo.value.x, lo.value.fun)
            && resp.body.result.maximum == Extremum(hi.value.x, -hi.value.fun)
            && resp.body.result.originalFunction == func
            && resp.body.latexFormat == render(resp.body.result.minimum, resp.body.result.maximum))
  {
    var expr := NormalizeFunction(func);
    match minimize(Objective(expr, false), InitialGuess, domain)
    case Err(f) => HttpError(BadRequest, f)
    case Ok(lo) =>
      match minimize(Objective(expr, true), InitialGuess, domain)
      case Err(f) => HttpError(BadRequest, f)
      case Ok(hi) =>
        var result := OptimizeResult(Extremum(lo.x, lo.fun), Extremum(hi.x, -hi.fun), func);
        Respond(Computation("success", result, render(result.minimum, result.maximum)))
  }

  /** The request `x^2` over the default domain, given as `x^` and
      `2`: when the plain search stops at 0 with value 0 and the negated search
      stops at 10 with value -100, the report is a minimum of 0 at 0 and a
      maximum of 100 at 10, with the request's text echoed. */
  lemma {:induction false} OptimizeExample(
    h: string,
    t: string,
    minimize: (Objective, real, Domain) -> Result<Minimum>,
    render: (Extremum, Extremum) -> string
  )
    requires h == "x^" && t == "2"
    requires minimize(Objective("x**2", false), 0.0, DefaultDomain) == Ok(Minimum(0.0, 0.0))
    requires minimize(Objective("x**2", true), 0.0, DefaultDomain) == Ok(Minimum(10.0, -100.0))
    ensures var resp := OptimizeFunction(h + t, DefaultDomain, minimize, render);
      resp.Respond?
      && resp.body.result == OptimizeResult(Extremum(0.0, 0.0), Extremum(10.0, 100.0), h + t)
  {
    SquareExample(h, t);
  }

  /** `v`, or `-v` for a negated objective. */
  function Signed(negated: bool, v: real): real {
    if negated then -v else v
  }

  /** `r` is an exact answer of a search of `f` (negated when asked) over
      `domain`: the point lies in the domain, the value is the objective there,
      and no point of the domain has a smaller objective. */
  ghost predicate ExactSearch(r: Result<Minimum>, domain: Domain, f: real -> real, negated: bool) {
    r.Ok? ==>
      domain.low <= r.value.x <= domain.high
      && r.value.fun == Signed(negated, f(r.value.x))
      && forall y :: domain.low <= y <= domain.high ==> r.value.fun <= Signed(negated, f(y))
  }

  /** When both searches are exact for the function `f` the expression denotes,
      the reported values are `f` at the reported points, and they bracket
      every value of `f` over the domain: negating the maximum search's value
      undoes the negated objective. */
  lemma {:induction false} OptimizeBrackets(
    func: string,
    domain: Domain,
    minimize: (Objective, real, Domain) -> Result<Minimum>,
    render: (Extremum, Extremum) -> string,
    f: real -> real
  )
    requires ExactSearch(minimize(Objective(NormalizeFunction(func), false), InitialGuess, domain), domain, f, false)
    requires ExactSearch(minimize(Objective(NormalizeFunction(func), true), InitialGuess, domain), domain, f, true)
    ensures var resp := OptimizeFunction(func, domain, minimize, render);
      resp.Respond? ==>
        var lo, hi := resp.body.result.minimum, resp.body.result.maximum;
        && domain.low <= lo.point <= domain.high && lo.value == f(lo.point)
        && domain.low <= hi.point <= domain.high && hi.value == f(hi.point)
        && forall y :: domain.low <= y <= domain.high ==> lo.value <= f(y) <= hi.value
  {
    var resp := OptimizeFunction(func, domain, minimize, render);
    if resp.Respond? {
      var expr := NormalizeFunction(func);
      var hiRun := minimize(Objective(expr, true), InitialGuess, domain).value;
      forall y | domain.low <= y <= domain.high
        ensures f(y) <= resp.body.result.maximum.value
      {
        assert hiRun.fun <= -f(y);
      }
    }
  }
}
