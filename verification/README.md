# Auction analysis core, modelled in Dafny

The application reads a Spanish public-auction notice (BOE subastas) and
turns it into nine fields. It also computes the figures an investor weighs
before bidding: the bid as a share of the auction value, the transfer tax
(ITP), notary costs, arrears of property tax (IBI) and community fees, the
total investment and the resale margin. The analysis pages (a new analysis,
extracting a notice, the calculations) are open only to a user whose
subscription is valid (`api/app.py:127`, `api/app.py:142`, `api/app.py:160`).

This project models that core as pure functions over immutable data:

- `results.dfy`: `Option` and `Outcome`. `Outcome` is the Python pair
  `(value, None)` / `(None, message)`, plus an exception that escapes.
- `text.dfy`: the Python string operations the core relies on: `in`,
  `replace`, `split(c)[0]`, `split`, `join` and `strip`.
- `numbertext.dfy`: `limpiar_entero_por_texto` and `formatear_numero`. The
  latter works on whole cents.
- `urls.dfy`: `parse_qs` over decoded pairs, and `construir_urls`.
- `extraction.dfy`: `CAMPOS` and the `if`/`elif` chain of
  `extraer_datos_subasta`. The chain is an ordered table of rules, folded
  over the pages and their rows.
- `rounding.dfy`: `round(x, 2)` as round-half-even on exact reals.
- `calculators.dfy`: the six `calcular_*` functions. It includes Python's
  `float()`/`int()` coercions and `x or 0`.
- `subscription.dfy`: `User.activar_suscripcion` and
  `User.tiene_suscripcion_valida`, as a state machine over
  (`suscripcion_activa`, `fecha_suscripcion`, `fecha_expiracion`).

The model follows the code as written, including these behaviours, which a
reader of the code might not expect:

- The verdict of `calcular_porcentaje_puja` is decided on the **unrounded**
  percentage, and only the displayed figure is rounded. So a bid of 69 996 on
  100 000 shows 70.00 % but is "POSIBLEMENTE"
  (`Calculators.ShownSeventyNotAdjudicado`).
- `calcular_porcentaje_puja` and `calcular_itp_notaria` catch only
  `ValueError`. A `None` argument therefore raises `TypeError` out of the
  function rather than returning an error message (`Outcome.Raised`).
- Monetary inputs are not checked to be non-negative anywhere.
- The ITP rate's default of 7 % is applied by the web layer
  (`api/app.py:198`), not by `calcular_itp_notaria`.
- The comma branch of `limpiar_entero_por_texto` cannot run, because every
  comma has already been replaced by a dot (`NumberText.CommaBranchDead`).

## Model

| member | source | states |
|---|---|---|
| NumberText.CleanInteger | api/subasta_logic.py:20-27 | The cleaned text never contains a dot, a comma or a space. |
| NumberText.CleanIntegerCutsAtFirstComma | api/subasta_logic.py:22-27 | The result is the input with dots and spaces removed, cut before its first comma and then stripped on the left only, so blanks just before the comma survive ("5\t,3" gives "5\t"). Without a comma it is stripped on both sides. |
| NumberText.CommaBranchDead | api/subasta_logic.py:22-24 | After the replacements and the strip no comma is left, so the `','` branch is never taken. |
| NumberText.CleanGroupedAmount | api/subasta_logic.py:20-27 | For digit groups `a`, `b`, `d`, the text `a.b,d` cleans to `ab`: the thousands dot is dropped and the decimals are discarded (e.g. "123.456,78" gives "123456"). |
| NumberText.FormatearNumero | api/subasta_logic.py:255-265 | A number comes out in the Spanish form: sign, `.`-grouped whole part, `,`, two decimals. The English format (`,` thousands, `.` decimals) with its separators swapped through the placeholder gives exactly that. A value `float()` rejects is shown as given, and `None` as "None". |
| NumberText.FormatearRoundTrip | api/subasta_logic.py:255-265 | Reading the formatted text back as a Spanish amount recovers the exact number of cents, for every integer. |
| NumberText.CleanFormatted | api/subasta_logic.py:20-27 | Cleaning a formatted amount gives its sign and its whole-euro part: the cleaner inverts the formatter up to the decimals. |
| NumberText.FormatearExample | api/subasta_logic.py:255-265 | 1234567.80 is formatted as "1.234.567,80". |
| Urls.ParseQs | api/subasta_logic.py:33 | The dictionary has distinct keys, and every key has at least one value. |
| Urls.ParseQsParsed | api/subasta_logic.py:33 | The dictionary has exactly the query's keys, each with all of its values in order. Keys are in order of first appearance. |
| Urls.KeptParamsSpec | api/subasta_logic.py:36-41 | The kept parameters are exactly the query's keys other than `ver`, each once, with its first value, in order of first appearance. |
| Urls.ConstruirUrls | api/subasta_logic.py:30-47 | Both URLs start with `scheme://netloc/path` and have the same length. They differ at one position only: the view digit, `1` in the first and `3` in the second. |
| Urls.QueryRoundTrip | api/subasta_logic.py:43-45 | Splitting the first URL's query at `&` gives `ver=1`, then exactly the kept parameters, decoded back in order. With no kept parameter it gives `ver=1` and an empty piece. |
| Urls.OnlyViewKey | api/subasta_logic.py:43-45 | When the only key is `ver` (or there is none), the URLs end in `?ver=1&` and `?ver=3&`. |
| Extraction.ClassifyRow | api/subasta_logic.py:73-112 | One row never adds or removes a key and never overwrites a non-empty field. It adds at most one address fragment at the end of the list. |
| Extraction.ScanRows | api/subasta_logic.py:62-112 | Walking a table's rows keeps the keys and every non-empty field. The fragment list only grows, by at most one per row. |
| Extraction.ScanPages | api/subasta_logic.py:56-116 | Walking the pages keeps the keys and every non-empty field, and the fragment list only grows. |
| Extraction.Finish | api/subasta_logic.py:118-119 | The final step adds only `Dirección`, the `", "`-join of the non-empty fragments. Every other field is left as the fold made it. |
| Extraction.FirstFiring | api/subasta_logic.py:73-112 | The chosen branch is the first whose condition holds. No earlier branch's condition holds. When none is chosen, no branch's condition holds. |
| Extraction.ExtraerDatos | api/subasta_logic.py:53-119 | The result always has exactly the nine `CAMPOS` keys. |
| Extraction.ExtraerDatosSubasta | api/subasta_logic.py:50-56 | Fetching the two views of `construir_urls` and folding them gives exactly the nine keys. |
| Extraction.ScanPagesFlatten | api/subasta_logic.py:56-116 | Skipping failed pages and walking the others row by row is one walk over all fetched rows, in page-then-row order. |
| Extraction.AllPagesFailed | api/subasta_logic.py:114-119 | When every fetch fails, every field is the empty string. |
| Extraction.DireccionUntouched | api/subasta_logic.py:73-112 | No row writes `Dirección` during the fold. It stays empty until the final join. |
| Extraction.FirstValueWins | api/subasta_logic.py:73-112 | A non-address field that is non-empty after some pages keeps that value in the result, whatever the later rows and pages hold. |
| Extraction.ExtraerProvenance | api/subasta_logic.py:73-112 | Every non-address field is empty or comes from a fetched row whose header matches that field's branch. The five numeric fields are the cleaned value of that row; the others are its raw value. |
| Extraction.ClassifyRowFills | api/subasta_logic.py:73-98 | A row whose header matches a storing branch before any earlier branch, and whose stored value is non-empty, leaves that field non-empty. |
| Extraction.ExtraerFillsField | api/subasta_logic.py:56-112 | If some fetched row's header first matches field `k`'s branch and its stored value is non-empty, `k` is non-empty in the result. This is the converse of provenance. |
| Extraction.NumericFieldsCleaned | api/subasta_logic.py:81-98 | The five numeric fields never contain a dot, a comma or a space. |
| Extraction.AddressBranch | api/subasta_logic.py:100-108 | The address branch a header reaches is the first non-storing branch whose patterns it matches; no earlier address branch matches. |
| Extraction.AddressBranchFires | api/subasta_logic.py:73-112 | When the first branch to fire is an address branch, it is the header's first matching address branch. When no storing branch matches the header, that address branch is the one that fires. |
| Extraction.AlwaysAddressTaken | api/subasta_logic.py:73-108 | A row whose header reaches an address branch without matching an earlier storing branch is taken by that address branch, whatever has been filled. |
| Extraction.ClassifyRowFragments | api/subasta_logic.py:100-108 | A row appends its header's address fragment or nothing. A row whose header reaches an address branch without matching any storing branch placed before it always appends it. |
| Extraction.ScanRowsFragments | api/subasta_logic.py:100-108 | The fold only appends to the address fragments. In order, it appends one fragment each for a subsequence of the rows that keeps every row whose header reaches an address branch without matching an earlier storing branch: the raw value, or "CP " and the value for a postal code. |
| Extraction.TracedCovers | api/subasta_logic.py:100-108 | Such a fragment list has at least one entry per such row and at most one per row. |
| Extraction.TracedSingle | api/subasta_logic.py:100-108 | For a one-row page whose header always reaches its address branch, the traced list is exactly that row's fragment. |
| Extraction.ExtraerDireccion | api/subasta_logic.py:118-119 | `Dirección` is the `", "`-join of the non-empty fragments of the fetched rows in page-then-row order. Every row whose header matches no storing branch placed before its address branch contributes its fragment ("localidad catastral" included, although the later `catastral` branch also matches it). |
| Extraction.FilledFieldFallsThrough | api/subasta_logic.py:73-112 | A row whose header matches an already filled field's branch is handled as if the chain started just after that branch. |
| Extraction.RowTakenBy | api/subasta_logic.py:73-112 | The first branch whose condition holds acts on the row, and no other does. |
| Extraction.AddressRowAppends | api/subasta_logic.py:100-108 | A row that reaches the dirección/ubicación/domicilio/bien, localidad/municipio or provincia branch adds its raw value to the fragments, and changes nothing else. |
| Extraction.PostalRowAppends | api/subasta_logic.py:103-104 | A postal-code row that reaches its branch adds "CP " followed by the value. |
| Extraction.UnmatchedRowIgnored | api/subasta_logic.py:73-112 | A row no branch takes leaves the result and the fragments unchanged. |
| Extraction.BienHeaderFillsIdentificador | api/subasta_logic.py:73-74 | A row headed "identificador del bien" fills `Identificador` with its raw value while that field is empty. |
| Extraction.BienHeaderFallsToAddress | api/subasta_logic.py:73-102 | Once `Identificador` is filled, the same header falls through every storing branch to the broad `bien` test and becomes an address fragment. |
| Extraction.LocalidadCatastralAlwaysAddress | api/subasta_logic.py:73-112 | The header "localidad catastral" reaches the `localidad` branch, matches no storing branch before it, and also matches the later `catastral` branch. |
| Extraction.LocalidadCatastralTraced | api/subasta_logic.py:105-106 | A page holding only that row traces exactly its value as the address, so the later `catastral` branch never takes it. |
| Rounding.RoundCents | api/subasta_logic.py:147 | The rounded value lies within half a hundredth of the input. An exact tie goes to the even hundredth. |
| Rounding.Round2 | api/subasta_logic.py:147 | `round(x, 2)` is `RoundCents(x)` hundredths: a whole number of hundredths within half a hundredth of `x`, and the even hundredth on a tie. |
| Rounding.RoundCentsMonotone | api/subasta_logic.py:147 | Rounding preserves order. |
| Rounding.Round2Exact | api/subasta_logic.py:147 | A value already in whole hundredths is unchanged. |
| Calculators.Float | api/subasta_logic.py:127-128 | `float()` gives a value exactly for a number, and that value is the number itself. It raises `TypeError` exactly for `None`, and `ValueError` for other text. |
| Calculators.Trunc | api/subasta_logic.py:182 | `int()` of a number truncates toward zero: the largest integer not above a non-negative value, and the smallest integer not below a negative one. |
| Calculators.Int | api/subasta_logic.py:182 | `int()` gives a value exactly for a number, and that value is the number truncated toward zero (`Trunc`). It raises `TypeError` exactly for `None`. |
| Calculators.OrZero | api/subasta_logic.py:217-224 | `x or 0` turns `None` and `''` into 0 and keeps a number. Only non-numeric text stays non-numeric. |
| Calculators.Tier | api/subasta_logic.py:134-143 | The three tiers: at least 70 is ADJUDICADO, from 50 up to 70 is POSIBLEMENTE, below 50 is DEPENDE JUZGADO. |
| Calculators.CalcularPorcentajePuja | api/subasta_logic.py:124-153 | A zero base gives its own error, and a non-numeric text gives "Valores inválidos". `None` escapes as `TypeError`. Otherwise the verdict and colour follow the unrounded percentage. The shown figure is `Round2` of the exact percentage, so it is rounded half-even to hundredths. |
| Calculators.VeredictoMonotone | api/subasta_logic.py:132-143 | On the same positive base, raising the bid never lowers the verdict. |
| Calculators.ShownSeventyNotAdjudicado | api/subasta_logic.py:132-150 | A bid of 69 996 on 100 000 is shown as 70.00 % yet classified POSIBLEMENTE/warning. |
| Calculators.CalcularItpNotaria | api/subasta_logic.py:156-171 | ITP is `Round2` of the rate applied to the value, and notary costs are `Round2` of 3 % of the value. Non-numeric text gives the ITP error, and `None` escapes as `TypeError`. |
| Calculators.NotariaIgnoresItp | api/subasta_logic.py:163 | The notary figure is the same whatever the ITP rate. |
| Calculators.AnosTotal | api/subasta_logic.py:182-185 | The year count is never negative. It is zero exactly when the procedure year is at least two beyond the current year, and otherwise equals current − procedure + 2. |
| Calculators.CalcularIbiJudicial | api/subasta_logic.py:174-195 | The year defaults to the clock's, and the procedure year is truncated by `int()`. The year count is clamped at zero, and the total is `Round2` of annual IBI × years. Any bad input gives the IBI error. |
| Calculators.IbiFutureProcedure | api/subasta_logic.py:182-185 | A procedure two or more years ahead gives zero years and a zero total. |
| Calculators.CalcularComunidadJudicial | api/subasta_logic.py:198-209 | The total is `Round2` of the fee × `int(years)`. Any bad input gives the community error. |
| Calculators.ComunidadFromIbi | api/subasta_logic.py:182-203 | Fed the IBI year count, the community calculation succeeds, and its total is `Round2` of the fee × those same clamped years. |
| Calculators.SumOrZero | api/subasta_logic.py:215-224 | The sum exists exactly when no argument is non-numeric text. |
| Calculators.CalcularTotalInversion | api/subasta_logic.py:212-230 | The result is `Round2` of the sum of the eight costs, each `None`/empty/zero counted as 0. It fails, with the total error, exactly when one is non-numeric text. |
| Calculators.MissingCountsAsZero | api/subasta_logic.py:215-224 | Replacing any argument by `None`, `''` or 0 gives the same sum. |
| Calculators.TotalExample | api/subasta_logic.py:212-230 | 100000 + 7000 + 3000 + 5000 + 1000, with `None`, `''` and 0 for the rest, totals 116000.00. |
| Calculators.CalcularMargenRentabilidad | api/subasta_logic.py:233-252 | A zero investment gives its own error, and non-numeric input gives the margin error. Otherwise the margin is `Round2` of sale − investment, and the yield is `Round2` of margin/investment × 100. `positivo` holds exactly when the sale exceeds the investment. |
| Calculators.PositiveMarginShown | api/subasta_logic.py:241-248 | A margin flagged positive is never shown as negative. |
| Calculators.TinyMarginPositive | api/subasta_logic.py:241-248 | A gain of a tenth of a cent is shown as 0.00 yet flagged positive: the flag is strict and unrounded. |
| Calculators.MargenExample | api/subasta_logic.py:233-252 | Selling at 150000 what cost 116000 gives a margin of 34000.00, a yield of 29.31 and `positivo`. |
| Subscription.Activate | api/models.py:33-37 | Activation sets the flag, the start to now, and the expiry to now plus the given days. |
| Subscription.Check | api/models.py:39-47 | Inactive gives false with no change. Past the expiry gives false and switches the flag off. Otherwise (no expiry, or not yet past it) gives true with no change. |
| Subscription.CheckKeepsDates | api/models.py:39-47 | After a check the flag equals the answer, and the dates are never changed. |
| Subscription.CheckIdempotent | api/models.py:39-47 | A second check at the same moment gives the same answer and the same state. |
| Subscription.ValidEarlier | api/models.py:43-47 | A subscription valid at some time was valid at every earlier time. |
| Subscription.ActivationWindow | api/models.py:33-47 | After activating for d ≥ 0 days, a check is valid exactly up to and including the expiry second. |
| Subscription.InactiveUntilActivated | api/models.py:41-42 | From an inactive state, every check in a trace without activation fails and the state stays as it is. |
| Subscription.FailedCheckSticks | api/models.py:43-46 | After a failed check, every later check fails until the next activation. |
| Subscription.ActivationForgets | api/models.py:33-37 | After an activation, the rest of a trace behaves the same whatever the state before it. |
| Subscription.NoExpiryAlwaysValid | api/models.py:43-47 | An active subscription with no expiry date passes every check. |
| Subscription.DefaultActivation | api/models.py:33-47 | A new user is not subscribed. After the default 30-day activation they are valid at the expiry second and invalid one second later. |

## Left out

- Fetching and parsing. `requests.get` with its timeout, and BeautifulSoup's discovery of tables, `th` and `td` cells, are not modelled (`api/subasta_logic.py:57-70`). A page is the list of its (header, value) rows, already stripped and lower-cased, or `None` when the fetch or the parse failed. A failure can only happen before any row is read. The fetch is a function parameter of `ExtraerDatosSubasta`.
- `urlparse` and the inner workings of `parse_qs` are not modelled: percent-decoding, the dropping of blank values, and the splitting of the raw query. The URL is given as scheme, host, path and the decoded (key, value) pairs in query order.
- `Urls.QueryRoundTrip`: the parse-back holds only when no key or value contains `&` and no key contains `=`. The source does not escape these characters, so other inputs cannot be read back.
- Extraction.ExtraerDireccion: a row whose header matches a storing branch placed before its address branch contributes its fragment only when that field is already filled. The whole-fold statement leaves such rows optional; the single-row lemmas (`Extraction.ClassifyRowFragments`, `Extraction.BienHeaderFallsToAddress`) pin down when they contribute.
- Binary floating point is not modelled: figures are exact reals, and `round` is half-even on those reals. An IEEE double can land on the other side of a tie or of a tier threshold.
- `NumberText.FormatearNumero` works on whole cents, so the `.2f` rounding of a float with more decimals is not modelled. `float()`'s acceptance of text such as `"1e3"`, `"inf"` or `"nan"` is not modelled either. A value `float()` rejects is shown as `str(numero)`.
- `Calculators.Int`: a number is truncated toward zero. Text with a fractional part, which `int()` rejects with `ValueError`, is not distinguished from a number; both are `Num`.
- The current year in `calcular_ibi_judicial` and the current time in the subscription are parameters (`clockYear`, `now` in seconds). `activar_suscripcion` reads the clock twice, but the model uses one time for both dates.
- `db.session.commit()` after an expiry is left out; only its in-memory effect, the cleared flag, is modelled. Password hashing, the ORM columns and `AnalisisSubasta` are left out. Everything in `api/app.py` (routing, sessions, JSON, persistence) is left out too.
- A `None` `suscripcion_activa` behaves as `False` in `tiene_suscripcion_valida`; the model's flag is a plain boolean.
