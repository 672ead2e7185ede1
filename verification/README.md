# Mathematical computation backend: normalizer, handlers and formatter

This project models the core of a small FastAPI service, `backend/main.py`, in
Dafny. The service has two endpoints:

- `/solve-equation` takes an equation written in a calculator-like notation
  such as `x^2 + 5x + 6 = 0`. It rewrites the text into SymPy syntax, solves
  it for `x`, and returns the roots together with a LaTeX rendering.
- `/optimize-function` takes a function of `x` and a domain. It runs SciPy's
  bounded minimizer twice, once on the function and once on its negation, and
  returns the minimum, the maximum and a LaTeX block.

The model covers the text rewriting both endpoints share and the
canonicalization the solve endpoint adds. It also covers the formatting of
the roots and what each handler reports on success and on failure. The
symbolic engine and the numeric minimizer are black boxes passed in as
function parameters.

Modules:

- `Outcomes` (`outcomes.dfy`): `Result`, `Option`, and the `Failure` values
  standing for the exceptions the handlers catch.
- `Text` (`text.dfy`): the Python string primitives the backend uses:
  `'=' in s` (through a count of `=`), `str.split` on one character,
  `str.join`, and `str.strip` (ASCII whitespace).
- `Decimal` (`decimal.dfy`): `str(n)` for the root indices and its inverse.
- `Notation` (`notation.dfy`): the rewrites `^` → `**` and digit-`x` → digit-`*x`, and the
  zero form `(left)-(right)` of an equation. The two pipelines are
  `NormalizeFunction` (optimize path) and `NormalizeEquation` (solve path).
- `Formatter` (`formatter.dfy`): the `x_{k} = root` labels joined with ` \quad `.
- `Handlers` (`handlers.dfy`): `SolveEquation` and `OptimizeFunction` as pure
  functions, with the HTTP 400 error path.

On these points the model follows the code of `backend/main.py`, where a
reader of the service's description might expect otherwise:

- Roots are labelled `x_{1}`, `x_{2}`, … with braces. The f-string on line 64
  doubles its braces, and doubled braces are literal braces; the label is not
  `x_1`.
- The zero form is `(left)-(right)` with no spaces around the minus.
- An empty input and a domain with `low >= high` are not rejected up front.
  The text goes to the engine or minimizer, and whatever they raise becomes
  the 400 response.
- Any `=` still present on the optimize path is handed to `eval` unchanged.
  The rewrite never splits on `=` there.

## Model

| member | source | states |
|---|---|---|
| Text.CountZero | backend/main.py:55 | `'=' in s` holds exactly when the count of `=` is non-zero. |
| Text.Split | backend/main.py:56 | `s.split(c)` yields one more piece than there are `c`s, and no piece contains `c`. |
| Text.JoinSplit | backend/main.py:56 | Joining the pieces of a split with the separator gives the original string back. |
| Text.SplitJoin | backend/main.py:56 | Splitting a join of separator-free pieces gives the pieces back. |
| Text.Strip | backend/main.py:57 | `strip()` returns a slice of its input with only whitespace around it, and the slice neither starts nor ends with whitespace. |
| Text.StripUnique | backend/main.py:57 | Any split of a string into whitespace, a core with non-space ends, and whitespace has `Strip` equal to that core. |
| Text.StripChars | backend/main.py:57 | Stripping introduces no characters. |
| Decimal.Show | backend/main.py:64 | `str(n)` is a non-empty run of digits with no leading zero unless `n` is 0. |
| Decimal.ValueShow | backend/main.py:64 | Reading the numeral back gives the number. |
| Decimal.ShowInjective | backend/main.py:64 | Distinct indices get distinct numerals. |
| Notation.PowerRewrite | backend/main.py:45 | After `replace('^', '**')` no `^` remains, and the length grows by one per `^`. |
| Notation.PowerRewriteAt | backend/main.py:45 | Input index `i` lands at `i` plus the number of earlier `^`s. A `^` becomes `**` there and every other character is copied unchanged. |
| Notation.PowerRewriteCount | backend/main.py:85 | Characters other than `^` and `*` keep their multiplicity, and the `*` count grows by two per `^`. |
| Notation.PowerRewriteFixpoint | backend/main.py:45 | The rewrite leaves a string unchanged exactly when it holds no `^`. |
| Notation.PowerRewriteIdempotent | backend/main.py:85 | Rewriting twice is rewriting once. |
| Notation.PowerRestoreRewrite | backend/main.py:45 | On inputs without `*`, reading `**` back as `^` undoes the rewrite. |
| Notation.PowerRewriteMerges | backend/main.py:45 | `x^2` and `x**2` rewrite to the same text, so the rewrite is not invertible on inputs with `*`. |
| Notation.NeedsStar | backend/main.py:49 | The comprehension's test: index `i` gets a `*` when it is above 0, holds an `x`, and follows a digit of the string as it was before the rewrite. |
| Notation.StarSitesZero | backend/main.py:49 | No `*` is due exactly when no `x` at an index above 0 follows a digit. |
| Notation.ImplicitMul | backend/main.py:48-52 | The output is one character longer per digit-`x` site. It starts with the input's first character, and no `x` in it follows a digit. |
| Notation.ImplicitMulErasure | backend/main.py:48-52 | Deleting the inserted characters gives the input back exactly. Every inserted character is a `*` directly before an `x`, after a digit, never at index 0. |
| Notation.ImplicitMulFixpoint | backend/main.py:88-92 | The rewrite leaves a string unchanged exactly when no `x` follows a digit, so applying it twice is applying it once. |
| Notation.ImplicitMulCount | backend/main.py:48-52 | Only `*` is added: every other character keeps its multiplicity. |
| Notation.ImplicitMulAppend | backend/main.py:48-52 | The rewrite of `u + v` is the rewrite of `u`, then one `*` exactly when `u` ends in a digit and `v` starts with `x`, then the rewrite of `v`. |
| Notation.ImplicitMulExamples | backend/main.py:47-52 | `5x` becomes `5*x`, `12x` becomes `12*x`, and `x5` is left alone. |
| Notation.Canonicalize | backend/main.py:55-57 | Text without `=` is unchanged. Two or more `=` fail with "expected 2 values, got count+1", which the handler turns into a 400. Otherwise the result holds no `=`. |
| Notation.ZeroForm | backend/main.py:57 | `(left)-(right)` of the stripped sides adds only `(`, `)` and `-` to the characters of the two sides. |
| Notation.CanonicalizeOneEquals | backend/main.py:55-57 | With a single `=` at index `k`, the result is `(strip(s[..k]))-(strip(s[k+1..]))`. |
| Notation.CanonicalizeSides | backend/main.py:56-57 | An equation `l=r` with `=`-free sides becomes the zero form of `l` and `r`. |
| Notation.CanonicalizeTight | backend/main.py:57 | Sides with no surrounding whitespace appear verbatim inside `(l)-(r)`. |
| Notation.CanonicalizeKeeps | backend/main.py:55-57 | Canonicalization adds only `(`, `)` and `-`, and keeps text with no digit-`x` pair free of one. |
| Notation.NormalizeFunction | backend/main.py:85-92 | The optimize rewrite leaves no `^` and no digit-`x` pair. It keeps the count of every character other than `^` and `*`, including `=`. |
| Notation.NormalizeEquation | backend/main.py:45-57 | The solve rewrite fails exactly on two or more `=`. Without `=` it equals the optimize rewrite. Otherwise the result holds no `^`, no `=` and no digit-`x` pair. |
| Notation.FunctionExample | backend/main.py:85-92 | `x^2-4=0` rewrites to `x**2-4=0` on the optimize path. |
| Notation.SquareExample | backend/main.py:85-92 | The optimize input `x^2` rewrites to `x**2`. |
| Notation.NormalizeEquationExample | backend/main.py:45-57 | `x^2-4=0` normalizes to `(x**2-4)-(0)`. |
| Notation.QuadraticExample | backend/main.py:41-57 | The docstring's equation `x^2 + 5x + 6 = 0` normalizes to `(x**2 + 5*x + 6)-(0)`: the power is rewritten, `5x` gets its `*`, and both sides lose their surrounding spaces. |
| Formatter.Label | backend/main.py:64 | The f-string `x_{k} = root` reads back as exactly `k` and the root, so distinct index and root pairs give distinct labels. |
| Formatter.FormatSolutions | backend/main.py:64-72 | The LaTeX is empty exactly when there are no roots, and a single root gives its label alone. |
| Formatter.FormatAppend | backend/main.py:64-72 | One more root appends a separator and a label with the next index. Labels run 1, 2, … in solver order. |
| Formatter.FormatSeparators | backend/main.py:72 | With backslash-free roots, the LaTeX holds exactly `n - 1` backslashes, one per ` \quad `. |
| Formatter.FormatExample | backend/main.py:64-72 | Roots `-2`, `2` format as `x_{1} = -2 \quad x_{2} = 2`. |
| Handlers.SolveEquation | backend/main.py:37-75 | Two or more `=` give a 400 with the unpacking failure, whatever the engine. The engine is handed the normalized text, and its failure becomes a 400. On success the roots are exactly the engine's, the LaTeX formats them, and the request's equation is echoed verbatim. |
| Handlers.SolveSeesOnlyNormalForm | backend/main.py:43-72 | Equations with the same normalized text get the same failure, or the same roots and LaTeX. Each echoes its own equation. |
| Handlers.SolveExample | backend/main.py:43-73 | The engine is handed `(x**2-4)-(0)` for `x^2-4=0`. Roots `-2`, `2` give `x_{1} = -2 \quad x_{2} = 2`. |
| Handlers.OptimizeFunction | backend/main.py:77-129 | Both searches run from `x0 = 0` within the domain on the normalized text, the second negated. The first failing search gives the 400. On success the maximum value is the negation of the second search's value, the LaTeX is rendered from the two extrema alone, and the request's function is echoed verbatim. |
| Handlers.OptimizeExample | backend/main.py:99-115 | For `x^2` on the default domain, a plain search ending at 0 with value 0 and a negated search ending at 10 with value -100 give a minimum of 0 at 0 and a maximum of 100 at 10, with `x^2` echoed. |
| Handlers.OptimizeBrackets | backend/main.py:99-112 | If both searches are exact for the function, the reported values are the function at the reported points. Both points lie in the domain, and the two values bracket every value of the function over the domain. |

## Left out

- `frontend/app.py`: the Streamlit UI, its chat-model calls and its HTTP client. These are presentation and foreign services.
- FastAPI application set-up, CORS, the pydantic request and response classes, the root endpoint and the `uvicorn` launch (`backend/main.py:1-35`, `131-133`). This is framework plumbing. Pydantic's own request validation (a 422 for a malformed body) is not modelled.
- SymPy's `symbols`, `sympify` and `solve` (`backend/main.py:59-61`). They are the `engine` parameter, a function from the normalized text to the stringified roots or a failure.
- SciPy's `minimize`, NumPy and the `eval`-built objective (`backend/main.py:97-103`). They are the `minimize` parameter, given the normalized text, a negation flag, the start point and the domain. Floats are reals and `float(...)` is the identity.
- The `.2f` LaTeX block of the optimize endpoint (`backend/main.py:118-121`). It is the `render` parameter, which sees only the two extrema, because it is float-to-decimal rendering.
- The `print` on `backend/main.py:96`, which is logging only.
- `str.isdigit` and `str.isspace` are limited to ASCII. Non-ASCII digits such as `²` and non-ASCII spaces are not modelled.
- The root text: the source stores `str(sol)` in `solutions` (line 69) but formats the label with the f-string's `format(sol, '')` (line 64). The model takes both to be the same engine-supplied string.
- The exception message text (`str(e)`): a failure is a `Failure` value. The unpacking error carries the expected and actual part counts, and an engine failure carries its message.
- Handlers.OptimizeBrackets: the searches are local in the source, and the lemma only states what follows when they happen to be exact.
