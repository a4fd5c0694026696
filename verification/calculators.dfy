/** The `calcular_*` functions: small arithmetic with explicit guards. Inputs
    arrive from a web form, so each is a number, an empty string, some other
    text, or `None`; numbers are exact reals. */
module Calculators {
  import opened Results
  import opened Rounding

  // ---------------------------------------------------------------------------
  // Python coercions
  // ---------------------------------------------------------------------------

  /** An argument as Python sees it. `Num` is an `int`, a `float`, or text
      that `float()` accepts. */
  datatype Arg = Num(v: real) | Blank | NonNumeric | NoneValue

  /** What a coercion gives: a value, or the exception it raises. */
  datatype Coerced<T> = Value(v: T) | ValueError | TypeError

  /** `float(a)`: text that is not a number raises `ValueError`, `None`
      raises `TypeError`. */
  function Float(a: Arg): (c: Coerced<real>)
    ensures c.Value? <==> a.Num?
    ensures c.Value? ==> c.v == a.v
    ensures c.TypeError? <==> a.NoneValue?
  {
    match a
    case Num(v) => Value(v)
    case Blank => ValueError
    case NonNumeric => ValueError
    case NoneValue => TypeError
  }

  /** `int(x)` on a number truncates toward zero. */
  function Trunc(x: real): (n: int)
    ensures x >= 0.0 ==> n as real <= x < n as real + 1.0
    ensures x < 0.0 ==> n as real - 1.0 < x <= n as real
    ensures x >= 0.0 ==> n >= 0
    ensures x < 0.0 ==> n <= 0
  {
    if x >= 0.0 then x.Floor else -((-x).Floor)
  }

  /** `int(a)`. */
  function Int(a: Arg): (c: Coerced<int>)
    ensures c.Value? <==> a.Num?
    ensures c.Value? ==> c.v == Trunc(a.v)
    ensures c.TypeError? <==> a.NoneValue?
  {
    match a
    case Num(v) => Value(Trunc(v))
    case Blank => ValueError
    case NonNumeric => ValueError
    case NoneValue => TypeError
  }

  /** `a or 0`: `None`, the empty string and zero are falsy. */
  function OrZero(a: Arg): (b: Arg)
    ensures b.Num? || b.NonNumeric?
    ensures b.NonNumeric? <==> a.NonNumeric?
    ensures a.Num? ==> b == a
    ensures a.NoneValue? || a.Blank? ==> b == Num(0.0)
  {
    if a.NoneValue? || a.Blank? then Num(0.0) else a
  }

  // ---------------------------------------------------------------------------
  // calcular_porcentaje_puja
  // ---------------------------------------------------------------------------

  datatype Veredicto = Adjudicado | Posiblemente | DependeJuzgado

  function Label(v: Veredicto): string
  {
    match v
    case Adjudicado => "ADJUDICADO"
    case Posiblemente => "POSIBLEMENTE"
    case DependeJuzgado => "DEPENDE JUZGADO"
  }

  /** The display colour of each verdict. */
  function Color(v: Veredicto): string
  {
    match v
    case Adjudicado => "success"
    case Posiblemente => "warning"
    case DependeJuzgado => "danger"
  }

  /** The three tiers, on the unrounded percentage. */
  function Tier(porcentaje: real): (v: Veredicto)
    ensures v == Adjudicado <==> porcentaje >= 70.0
    ensures v == Posiblemente <==> 50.0 <= porcentaje < 70.0
    ensures v == DependeJuzgado <==> porcentaje < 50.0
  {
    if porcentaje >= 70.0 then Adjudicado
    else if porcentaje >= 50.0 then Posiblemente
    else DependeJuzgado
  }

  datatype Puja = Puja(porcentaje: real, veredicto: string, color: string)

  const ZeroBaseError: string := "Error: Valor de subasta no puede ser 0"
  const InvalidValuesError: string := "Error: Valores inválidos"

  /** Only `ValueError` is caught, so a `None` argument escapes as `TypeError`. */
  function CalcularPorcentajePuja(puja: Arg, valorSubasta: Arg): (r: Outcome<Puja>)
    ensures r.Ok? <==> puja.Num? && valorSubasta.Num? && valorSubasta.v != 0.0
    ensures r.Ok? ==>
      var p := puja.v / valorSubasta.v * 100.0;
      r.value.veredicto == Label(Tier(p)) && r.value.color == Color(Tier(p))
      && r.value.porcentaje == Round2(p)
      && -1.0 / 200.0 <= r.value.porcentaje - p <= 1.0 / 200.0
    ensures r == Err(ZeroBaseError) <==> puja.Num? && valorSubasta == Num(0.0)
    ensures r == Err(InvalidValuesError) <==>
      puja.Blank? || puja.NonNumeric? || (puja.Num? && (valorSubasta.Blank? || valorSubasta.NonNumeric?))
    ensures r.Raised? <==> puja.NoneValue? || (puja.Num? && valorSubasta.NoneValue?)
  {
    match Float(puja)
    case TypeError => Raised("TypeError")
    case ValueError => Err(InvalidValuesError)
    case Value(p) =>
      match Float(valorSubasta)
      case TypeError => Raised("TypeError")
      case ValueError => Err(InvalidValuesError)
      case Value(b) =>
        if b == 0.0 then Err(ZeroBaseError)
        else
          var porcentaje := p / b * 100.0;
          var v := Tier(porcentaje);
          Ok(Puja(Round2(porcentaje), Label(v), Color(v)))
  }

  /** A higher bid on the same positive base never gets a lower verdict. */
  lemma VeredictoMonotone(puja1: real, puja2: real, base: real)
    requires base > 0.0 && puja1 <= puja2
    ensures var r1 := CalcularPorcentajePuja(Num(puja1), Num(base));
            var r2 := CalcularPorcentajePuja(Num(puja2), Num(base));
            (r1.value.veredicto == "ADJUDICADO" ==> r2.value.veredicto == "ADJUDICADO")
            && (r2.value.veredicto == "DEPENDE JUZGADO" ==> r1.value.veredicto == "DEPENDE JUZGADO")
  {
    assert puja1 / base * 100.0 <= puja2 / base * 100.0;
  }

  /** The verdict follows the unrounded percentage: a bid of 69 996 on
      100 000 shows 70.00 % yet is only POSIBLEMENTE. */
  lemma ShownSeventyNotAdjudicado()
    ensures CalcularPorcentajePuja(Num(69996.0), Num(100000.0))
      == Ok(Puja(70.0, "POSIBLEMENTE", "warning"))
  {
    assert 69996.0 / 100000.0 * 100.0 == 69.996;
    assert (69.996 * 100.0).Floor == 6999;
  }

  // ---------------------------------------------------------------------------
  // calcular_itp_notaria
  // ---------------------------------------------------------------------------

  datatype Itp = Itp(itp: real, notaria: real)

  const ItpError: string := "Error en cálculo de ITP"

  /** The notary and registry costs, a flat 3 % of the reference value. */
  const NotariaRate: real := 0.03

  function CalcularItpNotaria(valorReferencia: Arg, itpPorcentaje: Arg): (r: Outcome<Itp>)
    ensures r.Ok? <==> valorReferencia.Num? && itpPorcentaje.Num?
    ensures r.Ok? ==>
      r.value.itp == Round2(valorReferencia.v * (itpPorcentaje.v / 100.0))
      && r.value.notaria == Round2(valorReferencia.v * NotariaRate)
      && -1.0 / 200.0 <= r.value.itp - valorReferencia.v * (itpPorcentaje.v / 100.0) <= 1.0 / 200.0
      && -1.0 / 200.0 <= r.value.notaria - valorReferencia.v * NotariaRate <= 1.0 / 200.0
    ensures r == Err(ItpError) <==>
      valorReferencia.Blank? || valorReferencia.NonNumeric?
      || (valorReferencia.Num? && (itpPorcentaje.Blank? || itpPorcentaje.NonNumeric?))
    ensures r.Raised? <==> valorReferencia.NoneValue? || (valorReferencia.Num? && itpPorcentaje.NoneValue?)
  {
    match Float(valorReferencia)
    case TypeError => Raised("TypeError")
    case ValueError => Err(ItpError)
    case Value(v) =>
      match Float(itpPorcentaje)
      case TypeError => Raised("TypeError")
      case ValueError => Err(ItpError)
      case Value(p) =>
        assert v == valorReferencia.v && p == itpPorcentaje.v;
        assert v * (p / 100.0) == valorReferencia.v * (itpPorcentaje.v / 100.0);
        Ok(Itp(Round2(v * (p / 100.0)), Round2(v * NotariaRate)))
  }

  /** The notary figure does not depend on the ITP rate. */
  lemma NotariaIgnoresItp(valor: real, p1: real, p2: real)
    ensures CalcularItpNotaria(Num(valor), Num(p1)).value.notaria
         == CalcularItpNotaria(Num(valor), Num(p2)).value.notaria
  {
  }

  // ---------------------------------------------------------------------------
  // calcular_ibi_judicial and calcular_comunidad_judicial
  // ---------------------------------------------------------------------------

  datatype Ibi = Ibi(anosTotal: int, totalIbi: real)

  const IbiError: string := "Error en cálculo de IBI"

  /** Years of arrears: from the procedure's year through next year. */
  function AnosTotal(anoActual: int, anoProcedimiento: int): (n: int)
    ensures n >= 0
    ensures n == 0 <==> anoProcedimiento >= anoActual + 2
    ensures n > 0 ==> n == anoActual - anoProcedimiento + 2
  {
    var n := anoActual - anoProcedimiento + 2;
    if n < 0 then 0 else n
  }

  /** A yearly amount over `years` years. */
  function Yearly(annual: real, years: int): real
  {
    annual * years as real
  }

  /** `anoActual` defaults to the current year, which is the `clockYear`
      parameter here. Both exceptions are caught. */
  function CalcularIbiJudicial(ibiAnual: Arg, anoProcedimiento: Arg, anoActual: Option<int>, clockYear: int): (r: Outcome<Ibi>)
    ensures r.Ok? <==> ibiAnual.Num? && anoProcedimiento.Num?
    ensures !r.Ok? ==> r == Err(IbiError)
    ensures r.Ok? ==>
      var actual := if anoActual.Some? then anoActual.value else clockYear;
      r.value.anosTotal >= 0
      && r.value.anosTotal == AnosTotal(actual, Trunc(anoProcedimiento.v))
      && r.value.totalIbi == Round2(Yearly(ibiAnual.v, r.value.anosTotal))
      && -1.0 / 200.0 <= r.value.totalIbi - ibiAnual.v * r.value.anosTotal as real <= 1.0 / 200.0
  {
    var actual := if anoActual.Some? then anoActual.value else clockYear;
    match (Float(ibiAnual), Int(anoProcedimiento))
    case (Value(ibi), Value(proc)) =>
      var anos := AnosTotal(actual, proc);
      Ok(Ibi(anos, Round2(Yearly(ibi, anos))))
    case _ => Err(IbiError)
  }

  /** A procedure dated after next year owes nothing. */
  lemma IbiFutureProcedure(ibi: real, proc: int, actual: int)
    requires proc >= actual + 2
    ensures CalcularIbiJudicial(Num(ibi), Num(proc as real), Some(actual), actual) == Ok(Ibi(0, 0.0))
  {
    assert Trunc(proc as real) == proc;
    Round2Exact(0);
    assert ibi * 0.0 == 0 as real / 100.0;
  }

  /** An older procedure never counts fewer years. */
  lemma IbiYearsMonotone(proc1: int, proc2: int, actual: int)
    requires proc1 <= proc2
    ensures AnosTotal(actual, proc2) <= AnosTotal(actual, proc1)
  {
  }

  const ComunidadError: string := "Error en cálculo de comunidad"

  function CalcularComunidadJudicial(comunidadAnual: Arg, anosTotal: Arg): (r: Outcome<real>)
    ensures r.Ok? <==> comunidadAnual.Num? && anosTotal.Num?
    ensures !r.Ok? ==> r == Err(ComunidadError)
    ensures r.Ok? ==> r.value == Round2(Yearly(comunidadAnual.v, Trunc(anosTotal.v)))
    ensures r.Ok? ==> -1.0 / 200.0 <= r.value - comunidadAnual.v * Trunc(anosTotal.v) as real <= 1.0 / 200.0
  {
    match (Float(comunidadAnual), Int(anosTotal))
    case (Value(c), Value(n)) =>
      Ok(Round2(Yearly(c, n)))
    case _ => Err(ComunidadError)
  }

  /** Fed the year count of the IBI calculation, the community fee covers the
      same years. */
  lemma ComunidadFromIbi(ibi: real, comunidad: real, proc: int, actual: int)
    ensures var years := CalcularIbiJudicial(Num(ibi), Num(proc as real), Some(actual), actual).value.anosTotal;
            var r := CalcularComunidadJudicial(Num(comunidad), Num(years as real));
            r.Ok? && r.value == Round2(Yearly(comunidad, AnosTotal(actual, proc)))
            && -1.0 / 200.0 <= r.value - comunidad * AnosTotal(actual, proc) as real <= 1.0 / 200.0
  {
    assert Trunc(proc as real) == proc;
    var years := AnosTotal(actual, proc);
    assert Trunc(years as real) == years;
  }

  // ---------------------------------------------------------------------------
  // calcular_total_inversion
  // ---------------------------------------------------------------------------

  const TotalError: string := "Error en cálculo de inversión total"

  /** The exact sum of the arguments, each taken as `a or 0`. */
  function SumOrZero(args: seq<Arg>): (r: Option<real>)
    ensures r.Some? <==> forall i :: 0 <= i < |args| ==> !args[i].NonNumeric?
    decreases |args|
  {
    if args == [] then Some(0.0)
    else
      match (OrZero(args[0]), SumOrZero(args[1..]))
      case (Num(v), Some(rest)) => Some(v + rest)
      case _ => None
  }

  /** The eight costs: maximum bid, ITP, notary, IBI, community fees, alarms,
      utilities and renovation. */
  function CalcularTotalInversion(pujaMax: Arg, itp: Arg, notaria: Arg, ibiTotal: Arg, comunidadTotal: Arg,
                                  alarmas: Arg, suministros: Arg, reforma: Arg): (r: Outcome<real>)
    ensures var args := [pujaMax, itp, notaria, ibiTotal, comunidadTotal, alarmas, suministros, reforma];
      (r.Ok? <==> forall i :: 0 <= i < |args| ==> !args[i].NonNumeric?)
      && (!r.Ok? ==> r == Err(TotalError))
      && (r.Ok? ==> r.value == Round2(SumOrZero(args).value))
      && (r.Ok? ==> -1.0 / 200.0 <= r.value - SumOrZero(args).value <= 1.0 / 200.0)
  {
    var args := [pujaMax, itp, notaria, ibiTotal, comunidadTotal, alarmas, suministros, reforma];
    match SumOrZero(args)
    case Some(total) => Ok(Round2(total))
    case None => Err(TotalError)
  }

  /** `None`, the empty string and zero all count as nothing. */
  lemma {:induction false} MissingCountsAsZero(args: seq<Arg>, i: nat, a: Arg)
    requires i < |args| && (a.NoneValue? || a.Blank? || a == Num(0.0))
    ensures SumOrZero(args[i := a]) == SumOrZero(args[i := Num(0.0)])
    decreases |args|
  {
    if i > 0 {
      assert args[i := a][1..] == args[1..][i - 1 := a];
      assert args[i := Num(0.0)][1..] == args[1..][i - 1 := Num(0.0)];
      MissingCountsAsZero(args[1..], i - 1, a);
    }
  }

  /** The sum of whole-cent costs is exact. */
  lemma TotalExample()
    ensures CalcularTotalInversion(Num(100000.0), Num(7000.0), Num(3000.0), Num(5000.0), Num(1000.0),
                                   NoneValue, Blank, Num(0.0)) == Ok(116000.0)
  {
    Round2Exact(11600000);
  }

  // ---------------------------------------------------------------------------
  // calcular_margen_rentabilidad
  // ---------------------------------------------------------------------------

  datatype Margen = Margen(margen: real, rentabilidad: real, positivo: bool)

  const ZeroInvestmentError: string := "Error: Inversión no puede ser 0"
  const MargenError: string := "Error en cálculo de rentabilidad"

  function CalcularMargenRentabilidad(precioVenta: Arg, totalInversion: Arg): (r: Outcome<Margen>)
    ensures r.Ok? <==> precioVenta.Num? && totalInversion.Num? && totalInversion.v != 0.0
    ensures r == Err(ZeroInvestmentError) <==> precioVenta.Num? && totalInversion == Num(0.0)
    ensures r == Err(MargenError) <==> !precioVenta.Num? || !totalInversion.Num?
    ensures r.Ok? ==>
      var m := precioVenta.v - totalInversion.v;
      (r.value.positivo <==> precioVenta.v > totalInversion.v)
      && r.value.margen == Round2(m)
      && r.value.rentabilidad == Round2(m / totalInversion.v * 100.0)
      && -1.0 / 200.0 <= r.value.margen - m <= 1.0 / 200.0
      && -1.0 / 200.0 <= r.value.rentabilidad - m / totalInversion.v * 100.0 <= 1.0 / 200.0
  {
    match (Float(precioVenta), Float(totalInversion))
    case (Value(venta), Value(inversion)) =>
      if inversion == 0.0 then Err(ZeroInvestmentError)
      else
        var margen := venta - inversion;
        Ok(Margen(Round2(margen), Round2(margen / inversion * 100.0), margen > 0.0))
    case _ => Err(MargenError)
  }

  /** Selling at 150 000 what cost 116 000. */
  lemma MargenExample()
    ensures CalcularMargenRentabilidad(Num(150000.0), Num(116000.0)) == Ok(Margen(34000.0, 29.31, true))
  {
    Round2Exact(3400000);
    assert 34000.0 == 3400000 as real / 100.0;
    assert (34000.0 / 116000.0 * 100.0 * 100.0).Floor == 2931;
  }

  /** A positive margin is never shown as negative. */
  lemma PositiveMarginShown(venta: real, inversion: real)
    requires inversion != 0.0
    ensures var r := CalcularMargenRentabilidad(Num(venta), Num(inversion)).value;
            r.positivo ==> r.margen >= 0.0
  {
    if venta > inversion { Round2NonNegative(venta - inversion); }
  }

  /** The flag is strict and unrounded: a gain of a tenth of a cent is shown
      as 0.00 yet flagged positive. */
  lemma TinyMarginPositive()
    ensures CalcularMargenRentabilidad(Num(1000.001), Num(1000.0)).value.positivo
    ensures CalcularMargenRentabilidad(Num(1000.001), Num(1000.0)).value.margen == 0.0
  {
    assert 1000.001 - 1000.0 == 0.001;
    assert (0.001 * 100.0).Floor == 0;
  }
}
