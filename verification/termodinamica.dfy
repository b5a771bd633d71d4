/**
  The thermodynamics formulas: ideal gas law, mean kinetic energy of a
  monatomic gas, first law, isothermal work, Boyle's and Charles's laws and
  heat capacity. Like the calorimetry formulas, each reads its inputs by key
  in declaration order, evaluates one expression on SI values and converts
  the result to its target unit.
 */
module Termodinamica {
  import opened Units
  import opened Quantities
  import opened BaseFormula

  // ---------------------------------------------------------------------
  // Ideal gas law: V = n R T / P
  // Name, declared inputs and target as in core/formulas/termodinamica.py:6-16.

  const LeyGasesIdealesName := "Ley de los Gases Ideales"
  const LeyGasesIdealesVariables := [
    VariableSpec("moles", "n", Mol),
    VariableSpec("temperatura", "T", Kelvin),
    VariableSpec("presion", "P", Pascal)
  ]
  const LeyGasesIdealesTarget := VariableSpec("volumen", "V", Liter)

  /** All declared inputs are present, spelled out key by key so that reading them needs no unfolding of `Keys`. */
  predicate LeyGasesIdealesHasAll(inputs: Inputs)
  {
    "moles" in inputs && "temperatura" in inputs && "presion" in inputs
  }

  /** The declared keys, in declaration order; none is declared twice. */
  lemma LeyGasesIdealesKeys()
    ensures Keys(LeyGasesIdealesVariables) == ["moles", "temperatura", "presion"]
    ensures Distinct(Keys(LeyGasesIdealesVariables))
  {
  }

  /** The key-by-key spelling is the shared notion of all declared keys being present. */
  lemma LeyGasesIdealesHasAllShared(inputs: Inputs)
    ensures LeyGasesIdealesHasAll(inputs) <==> HasAll(inputs, Keys(LeyGasesIdealesVariables))
  {
    LeyGasesIdealesKeys();
  }

  /** Reads amount, temperature and pressure; a result is always in liter. */
  function SolveLeyGasesIdeales(inputs: Inputs): (r: Result<Quantity>)
    ensures r.Ok? ==> LeyGasesIdealesHasAll(inputs) && r.value.unit == Liter
  {
    var n :- Get(inputs, "moles");
    var t :- Get(inputs, "temperatura");
    var p :- Get(inputs, "presion");
    var v :- Div(Mul(Mul(n, R), t), p);
    To(v, LeyGasesIdealesTarget.unit)
  }

  /** Depends only on the declared keys' lookups: inputs that agree on them, in presence and SI value, give the same result. */
  lemma LeyGasesIdealesReadsDeclared(a: Inputs, b: Inputs)
    requires forall k :: k in Keys(LeyGasesIdealesVariables) ==> Get(a, k) == Get(b, k)
    ensures SolveLeyGasesIdeales(a) == SolveLeyGasesIdeales(b)
  {
    LeyGasesIdealesKeys();
    assert Get(a, "moles") == Get(b, "moles");
    assert Get(a, "temperatura") == Get(b, "temperatura");
    assert Get(a, "presion") == Get(b, "presion");
  }

  /** Reads in declaration order: the first absent declared key is the one reported missing. */
  lemma LeyGasesIdealesMissingKey(inputs: Inputs)
    ensures match FirstMissing(Keys(LeyGasesIdealesVariables), inputs)
            case Some(k) => SolveLeyGasesIdeales(inputs) == Err(MissingKey(k))
            case None => !(SolveLeyGasesIdeales(inputs).Err? && SolveLeyGasesIdeales(inputs).error.MissingKey?)
  {
    LeyGasesIdealesKeys();
  }

  /** The returned volume satisfies P V = n R T (in SI units). */
  lemma IdealGasLaw(inputs: Inputs)
    requires SolveLeyGasesIdeales(inputs).Ok?
    ensures Si(inputs["presion"]) * Si(SolveLeyGasesIdeales(inputs).value)
            == Si(inputs["moles"]) * R.si * Si(inputs["temperatura"])
  {
    var n, t, p := ToMeasure(inputs["moles"]), ToMeasure(inputs["temperatura"]), ToMeasure(inputs["presion"]);
    DivCancels(Mul(Mul(n, R), t), p);
  }

  /** With all inputs present, the evaluation divides by zero exactly when the pressure is zero. */
  lemma IdealGasZeroPressure(inputs: Inputs)
    requires LeyGasesIdealesHasAll(inputs)
    ensures SolveLeyGasesIdeales(inputs) == Err(DivByZero) <==> inputs["presion"].magnitude == 0.0
  {
    MeasureSign(inputs["presion"]);
  }

  /** Amount times R times temperature over pressure is a volume, so with a non-zero pressure the conversion to liter succeeds. */
  lemma LeyGasesIdealesDimensions(inputs: Inputs)
    requires "moles" in inputs && inputs["moles"].unit.dim == Substance
    requires "temperatura" in inputs && inputs["temperatura"].unit.dim == Temperature
    requires "presion" in inputs && inputs["presion"].unit.dim == Pressure && inputs["presion"].magnitude != 0.0
    ensures SolveLeyGasesIdeales(inputs).Ok?
  {
    MeasureSign(inputs["presion"]);
  }
  /**
    With every input present and exactly one of them, the `w`-th in
    declaration order, in a unit of another dimension than declared, the
    evaluation fails with a
    dimensionality error rather than giving a dimensionally wrong result
    (provided no division by zero comes first).
   */
  lemma LeyGasesIdealesWrongDimension(inputs: Inputs, w: nat)
    requires w < 3
    requires "moles" in inputs && (inputs["moles"].unit.dim == Substance <==> w != 0)
    requires "temperatura" in inputs && (inputs["temperatura"].unit.dim == Temperature <==> w != 1)
    requires "presion" in inputs && (inputs["presion"].unit.dim == Pressure <==> w != 2)
    requires inputs["presion"].magnitude != 0.0
    ensures SolveLeyGasesIdeales(inputs).Err? && SolveLeyGasesIdeales(inputs).error.DimMismatch?
  {
    var n, t, p := ToMeasure(inputs["moles"]), ToMeasure(inputs["temperatura"]), ToMeasure(inputs["presion"]);
    var q := Div(Mul(Mul(n, R), t), p);
    assert q.Ok? && q.value.dim != Volume by {
      MeasureSign(inputs["presion"]);
      IdealGasDimension(n.dim, t.dim, p.dim);
    }
    assert SolveLeyGasesIdeales(inputs) == To(q.value, Liter) by {
      assert Get(inputs, "moles") == Ok(n);
      assert Get(inputs, "temperatura") == Ok(t);
      assert Get(inputs, "presion") == Ok(p);
    }
  }

  /** When n R T / P is a volume, any two of its inputs in their declared dimensions force the third. */
  lemma IdealGasDimension(n: Dim, t: Dim, p: Dim)
    ensures var r := DimDiv(DimMul(DimMul(n, MolarEnergyPerKelvin), t), p);
            && (r == Volume && t == Temperature && p == Pressure ==> n == Substance)
            && (r == Volume && n == Substance && p == Pressure ==> t == Temperature)
            && (r == Volume && n == Substance && t == Temperature ==> p == Pressure)
  {
    var r := DimDiv(DimMul(DimMul(n, MolarEnergyPerKelvin), t), p);
    assert r.mass == n.mass + t.mass - p.mass + 1;
    assert r.length == n.length + t.length - p.length + 2;
    assert r.time == n.time + t.time - p.time - 2;
    assert r.temperature == n.temperature + t.temperature - p.temperature - 1;
    assert r.substance == n.substance + t.substance - p.substance - 1;
  }

  /** One mole at 273.15 K and 101325 Pa occupies between 22.41 and 22.42 liter. */
  lemma IdealGasMolarVolume()
    ensures var r := SolveLeyGasesIdeales(map["moles" := Quantity(1.0, Mol),
                                              "temperatura" := Quantity(273.15, Kelvin),
                                              "presion" := Quantity(101325.0, Pascal)]);
            r.Ok? && 22.41 < r.value.magnitude < 22.42
  {
    var inputs := map["moles" := Quantity(1.0, Mol),
                      "temperatura" := Quantity(273.15, Kelvin),
                      "presion" := Quantity(101325.0, Pascal)];
    LeyGasesIdealesDimensions(inputs);
    IdealGasLaw(inputs);
    ConstantsPositive();
    var v := SolveLeyGasesIdeales(inputs).value;
    assert Si(inputs["moles"]) == 1.0 && Si(inputs["temperatura"]) == 273.15 && Si(inputs["presion"]) == 101325.0;
    assert 101325.0 * Si(v) == 8.31446261815324 * 273.15;
    assert Si(v) == v.magnitude * 0.001;
  }

  // ---------------------------------------------------------------------
  // Mean kinetic energy of a monatomic ideal gas: K = 3/2 kB T
  // Name, declared inputs and target as in core/formulas/termodinamica.py:29-37.

  const EnergiaCineticaMediaName := "Energía Cinética Media (Gas Monoatómico)"
  const EnergiaCineticaMediaVariables := [
    VariableSpec("temperatura", "T", Kelvin)
  ]
  const EnergiaCineticaMediaTarget := VariableSpec("energia_cinetica", "K", Joule)

  /** Reads the temperature; a result is always in joule. */
  function SolveEnergiaCineticaMedia(inputs: Inputs): (r: Result<Quantity>)
    ensures r.Ok? ==> "temperatura" in inputs && r.value.unit == Joule
  {
    var t :- Get(inputs, "temperatura");
    // the factor 3/2 is evaluated by Python to exactly 1.5
    To(Mul(Mul(Measure(1.5, Dimensionless), KB), t), EnergiaCineticaMediaTarget.unit)
  }

  /** The declared keys, in declaration order; none is declared twice. */
  lemma EnergiaCineticaMediaKeys()
    ensures Keys(EnergiaCineticaMediaVariables) == ["temperatura"]
    ensures Distinct(Keys(EnergiaCineticaMediaVariables))
  {
  }

  /** Depends only on the declared keys' lookups: inputs that agree on them, in presence and SI value, give the same result. */
  lemma EnergiaCineticaMediaReadsDeclared(a: Inputs, b: Inputs)
    requires forall k :: k in Keys(EnergiaCineticaMediaVariables) ==> Get(a, k) == Get(b, k)
    ensures SolveEnergiaCineticaMedia(a) == SolveEnergiaCineticaMedia(b)
  {
    EnergiaCineticaMediaKeys();
    assert Get(a, "temperatura") == Get(b, "temperatura");
  }

  /** Reads in declaration order: the first absent declared key is the one reported missing. */
  lemma EnergiaCineticaMediaMissingKey(inputs: Inputs)
    ensures match FirstMissing(Keys(EnergiaCineticaMediaVariables), inputs)
            case Some(k) => SolveEnergiaCineticaMedia(inputs) == Err(MissingKey(k))
            case None => !(SolveEnergiaCineticaMedia(inputs).Err? && SolveEnergiaCineticaMedia(inputs).error.MissingKey?)
  {
    EnergiaCineticaMediaKeys();
  }

  /** The evaluation succeeds exactly when a temperature, of the temperature dimension, is supplied. */
  lemma EnergiaCineticaMediaDimensions(inputs: Inputs)
    ensures SolveEnergiaCineticaMedia(inputs).Ok?
            <==> "temperatura" in inputs && inputs["temperatura"].unit.dim == Temperature
  {
    if "temperatura" in inputs {
      if inputs["temperatura"].unit.dim == Temperature {
        assert SolveEnergiaCineticaMedia(inputs).Ok?;
      } else {
        assert SolveEnergiaCineticaMedia(inputs).Err?;
      }
    }
  }
  /**
    With the temperature in a unit of another dimension than kelvin, the
    evaluation fails with a dimensionality error rather than giving a
    dimensionally wrong result.
   */
  lemma EnergiaCineticaMediaWrongDimension(inputs: Inputs)
    requires "temperatura" in inputs && inputs["temperatura"].unit.dim != Temperature
    ensures SolveEnergiaCineticaMedia(inputs).Err? && SolveEnergiaCineticaMedia(inputs).error.DimMismatch?
  {
    var t := ToMeasure(inputs["temperatura"]);
    var e := To(Mul(Mul(Measure(1.5, Dimensionless), KB), t), Joule);
    assert e.Err? by {
      KineticEnergyDimension(t);
    }
    assert SolveEnergiaCineticaMedia(inputs) == e by {
      assert Get(inputs, "temperatura") == Ok(t);
    }
  }

  /** (3/2) kB T converts to joule exactly when T is a temperature. */
  lemma KineticEnergyDimension(t: Measure)
    ensures To(Mul(Mul(Measure(1.5, Dimensionless), KB), t), Joule).Ok? <==> t.dim == Temperature
  {
    var d := Mul(Mul(Measure(1.5, Dimensionless), KB), t).dim;
    assert d == DimMul(DimMul(Dimensionless, DimDiv(Energy, Temperature)), t.dim);
    assert d == Dim(1 + t.dim.mass, 2 + t.dim.length, -2 + t.dim.time, -1 + t.dim.temperature, t.dim.substance);
  }

  /** 1.5 kB T for an SI temperature, converted to joule. */
  lemma KineticEnergyOfMeasure(t: Measure)
    requires t.dim == Temperature
    ensures To(Mul(Mul(Measure(1.5, Dimensionless), KB), t), Joule).Ok?
    ensures To(Mul(Mul(Measure(1.5, Dimensionless), KB), t), Joule).value.magnitude == 1.5 * Boltzmann * t.si
  {
  }

  /** The energy is 1.5 times Boltzmann's constant times the temperature in kelvin. */
  lemma KineticEnergy(inputs: Inputs)
    requires SolveEnergiaCineticaMedia(inputs).Ok?
    ensures SolveEnergiaCineticaMedia(inputs).value.magnitude == 1.5 * Boltzmann * Si(inputs["temperatura"])
  {
    EnergiaCineticaMediaDimensions(inputs);
    KineticEnergyOfMeasure(ToMeasure(inputs["temperatura"]));
  }

  /** Scaling the temperature by k scales the energy by k. */
  lemma KineticEnergyProportional(t: Quantity, k: real)
    requires t.unit.dim == Temperature
    ensures var r := SolveEnergiaCineticaMedia(map["temperatura" := t]);
            var r' := SolveEnergiaCineticaMedia(map["temperatura" := Quantity(k * t.magnitude, t.unit)]);
            r.Ok? && r'.Ok? && r'.value.magnitude == k * r.value.magnitude
  {
    var t' := Quantity(k * t.magnitude, t.unit);
    EnergiaCineticaMediaDimensions(map["temperatura" := t]);
    EnergiaCineticaMediaDimensions(map["temperatura" := t']);
    KineticEnergy(map["temperatura" := t]);
    KineticEnergy(map["temperatura" := t']);
    var b := 1.5 * Boltzmann;
    assert Si(t') == k * Si(t);
    assert b * (k * Si(t)) == k * (b * Si(t));
  }

  /** A non-negative temperature gives a non-negative energy. */
  lemma KineticEnergyNonNegative(inputs: Inputs)
    requires "temperatura" in inputs && inputs["temperatura"].unit.dim == Temperature
    requires inputs["temperatura"].magnitude >= 0.0
    ensures SolveEnergiaCineticaMedia(inputs).Ok? && SolveEnergiaCineticaMedia(inputs).value.magnitude >= 0.0
  {
    EnergiaCineticaMediaDimensions(inputs);
    KineticEnergy(inputs);
    MeasureSign(inputs["temperatura"]);
    ConstantsPositive();
  }

  // ---------------------------------------------------------------------
  // First law of thermodynamics: dU = Q - W
  // Name, declared inputs and target as in core/formulas/termodinamica.py:48-57.

  const PrimeraLeyTermodinamicaName := "Primera Ley de la Termodinámica"
  const PrimeraLeyTermodinamicaVariables := [
    VariableSpec("calor", "Q", Joule),
    VariableSpec("trabajo", "W", Joule)
  ]
  const PrimeraLeyTermodinamicaTarget := VariableSpec("energia_interna", "\\Delta U", Joule)

  /** Reads heat and work; a result is always in joule. */
  function SolvePrimeraLeyTermodinamica(inputs: Inputs): (r: Result<Quantity>)
    ensures r.Ok? ==> "calor" in inputs && "trabajo" in inputs && r.value.unit == Joule
  {
    var q :- Get(inputs, "calor");
    var w :- Get(inputs, "trabajo");
    var du :- Sub(q, w);
    To(du, PrimeraLeyTermodinamicaTarget.unit)
  }

  /** The declared keys, in declaration order; none is declared twice. */
  lemma PrimeraLeyTermodinamicaKeys()
    ensures Keys(PrimeraLeyTermodinamicaVariables) == ["calor", "trabajo"]
    ensures Distinct(Keys(PrimeraLeyTermodinamicaVariables))
  {
  }

  /** Depends only on the declared keys' lookups: inputs that agree on them, in presence and SI value, give the same result. */
  lemma PrimeraLeyTermodinamicaReadsDeclared(a: Inputs, b: Inputs)
    requires forall k :: k in Keys(PrimeraLeyTermodinamicaVariables) ==> Get(a, k) == Get(b, k)
    ensures SolvePrimeraLeyTermodinamica(a) == SolvePrimeraLeyTermodinamica(b)
  {
    PrimeraLeyTermodinamicaKeys();
    assert Get(a, "calor") == Get(b, "calor");
    assert Get(a, "trabajo") == Get(b, "trabajo");
  }

  /** Reads in declaration order: the first absent declared key is the one reported missing. */
  lemma PrimeraLeyTermodinamicaMissingKey(inputs: Inputs)
    ensures match FirstMissing(Keys(PrimeraLeyTermodinamicaVariables), inputs)
            case Some(k) => SolvePrimeraLeyTermodinamica(inputs) == Err(MissingKey(k))
            case None => !(SolvePrimeraLeyTermodinamica(inputs).Err? && SolvePrimeraLeyTermodinamica(inputs).error.MissingKey?)
  {
    PrimeraLeyTermodinamicaKeys();
  }

  /** The change in internal energy plus the work gives back the heat. */
  lemma FirstLaw(inputs: Inputs)
    requires SolvePrimeraLeyTermodinamica(inputs).Ok?
    ensures SolvePrimeraLeyTermodinamica(inputs).value.magnitude + Si(inputs["trabajo"]) == Si(inputs["calor"])
  {
  }

  /** Heat equal to work (after SI normalisation) leaves the internal energy unchanged. */
  lemma FirstLawBalanced(inputs: Inputs)
    requires "calor" in inputs && inputs["calor"].unit.dim == Energy
    requires "trabajo" in inputs && inputs["trabajo"].unit.dim == Energy
    requires Si(inputs["calor"]) == Si(inputs["trabajo"])
    ensures SolvePrimeraLeyTermodinamica(inputs) == Ok(Quantity(0.0, Joule))
  {
  }

  /**
    With both inputs present the evaluation succeeds exactly when both are
    energies; otherwise the subtraction reports the two mismatched
    dimensions, or, when heat and work agree on a non-energy dimension, the
    conversion to joule does.
   */
  lemma FirstLawDimensionError(inputs: Inputs)
    requires "calor" in inputs && "trabajo" in inputs
    ensures var qd, wd := inputs["calor"].unit.dim, inputs["trabajo"].unit.dim;
            && (SolvePrimeraLeyTermodinamica(inputs).Ok? <==> qd == Energy && wd == Energy)
            && (qd != wd ==> SolvePrimeraLeyTermodinamica(inputs) == Err(DimMismatch(qd, wd)))
            && (qd == wd && qd != Energy ==> SolvePrimeraLeyTermodinamica(inputs) == Err(DimMismatch(qd, Energy)))
  {
  }
  /**
    With every input present and exactly one of them, the `w`-th in
    declaration order, in a unit of another dimension than declared, the
    evaluation fails with a
    dimensionality error rather than giving a dimensionally wrong result
    (provided no division by zero comes first).
   */
  lemma PrimeraLeyTermodinamicaWrongDimension(inputs: Inputs, w: nat)
    requires w < 2
    requires "calor" in inputs && (inputs["calor"].unit.dim == Energy <==> w != 0)
    requires "trabajo" in inputs && (inputs["trabajo"].unit.dim == Energy <==> w != 1)
    ensures SolvePrimeraLeyTermodinamica(inputs).Err? && SolvePrimeraLeyTermodinamica(inputs).error.DimMismatch?
  {
  }

  // ---------------------------------------------------------------------
  // Isothermal work: W = n R T ln(Vf / Vi)
  // Name, declared inputs and target as in core/formulas/termodinamica.py:67-78.

  const TrabajoIsotermicoName := "Trabajo en Proceso Isotérmico"
  const TrabajoIsotermicoVariables := [
    VariableSpec("moles", "n", Mol),
    VariableSpec("temperatura", "T", Kelvin),
    VariableSpec("volumen_inicial", "V_i", Liter),
    VariableSpec("volumen_final", "V_f", Liter)
  ]
  const TrabajoIsotermicoTarget := VariableSpec("trabajo", "W", Joule)

  /** All declared inputs are present, spelled out key by key so that reading them needs no unfolding of `Keys`. */
  predicate TrabajoIsotermicoHasAll(inputs: Inputs)
  {
    && "moles" in inputs && "temperatura" in inputs
    && "volumen_inicial" in inputs && "volumen_final" in inputs
  }

  /** The declared keys, in declaration order; none is declared twice. */
  lemma TrabajoIsotermicoKeys()
    ensures Keys(TrabajoIsotermicoVariables) == ["moles", "temperatura", "volumen_inicial", "volumen_final"]
    ensures Distinct(Keys(TrabajoIsotermicoVariables))
  {
  }

  /** The key-by-key spelling is the shared notion of all declared keys being present. */
  lemma TrabajoIsotermicoHasAllShared(inputs: Inputs)
    ensures TrabajoIsotermicoHasAll(inputs) <==> HasAll(inputs, Keys(TrabajoIsotermicoVariables))
  {
    TrabajoIsotermicoKeys();
  }

  /**
    The three laws of the natural logarithm the isothermal-work properties
    rely on: it vanishes at 1, turns products into sums and is strictly
    increasing on the positive reals.
   */
  ghost predicate IsNaturalLog(ln: real -> real)
  {
    && ln(1.0) == 0.0
    && (forall x, y :: 0.0 < x && 0.0 < y ==> ln(x * y) == ln(x) + ln(y))
    && (forall x, y :: 0.0 < x < y ==> ln(x) < ln(y))
  }

  /** Reads amount, temperature and both volumes; a result is always in joule. */
  function SolveTrabajoIsotermico(inputs: Inputs, ln: real -> real): (r: Result<Quantity>)
    ensures r.Ok? ==> TrabajoIsotermicoHasAll(inputs) && r.value.unit == Joule
  {
    var n :- Get(inputs, "moles");
    var t :- Get(inputs, "temperatura");
    var vi :- Get(inputs, "volumen_inicial");
    var vf :- Get(inputs, "volumen_final");
    var ratio :- Div(vf, vi);
    var l :- Log(ratio, ln);
    To(Mul(Mul(Mul(n, R), t), l), TrabajoIsotermicoTarget.unit)
  }

  /** Depends only on the declared keys' lookups: inputs that agree on them, in presence and SI value, give the same result. */
  lemma TrabajoIsotermicoReadsDeclared(a: Inputs, b: Inputs, ln: real -> real)
    requires forall k :: k in Keys(TrabajoIsotermicoVariables) ==> Get(a, k) == Get(b, k)
    ensures SolveTrabajoIsotermico(a, ln) == SolveTrabajoIsotermico(b, ln)
  {
    TrabajoIsotermicoKeys();
    assert Get(a, "moles") == Get(b, "moles");
    assert Get(a, "temperatura") == Get(b, "temperatura");
    assert Get(a, "volumen_inicial") == Get(b, "volumen_inicial");
    assert Get(a, "volumen_final") == Get(b, "volumen_final");
  }

  /** Reads in declaration order: the first absent declared key is the one reported missing. */
  lemma TrabajoIsotermicoMissingKey(inputs: Inputs, ln: real -> real)
    ensures match FirstMissing(Keys(TrabajoIsotermicoVariables), inputs)
            case Some(k) => SolveTrabajoIsotermico(inputs, ln) == Err(MissingKey(k))
            case None => !(SolveTrabajoIsotermico(inputs, ln).Err? && SolveTrabajoIsotermico(inputs, ln).error.MissingKey?)
  {
    TrabajoIsotermicoKeys();
    if "moles" !in inputs {
      FirstMissingAt(Keys(TrabajoIsotermicoVariables), inputs, 0);
    } else if "temperatura" !in inputs {
      FirstMissingAt(Keys(TrabajoIsotermicoVariables), inputs, 1);
    } else if "volumen_inicial" !in inputs {
      FirstMissingAt(Keys(TrabajoIsotermicoVariables), inputs, 2);
    } else if "volumen_final" !in inputs {
      FirstMissingAt(Keys(TrabajoIsotermicoVariables), inputs, 3);
    }
  }

  /** The work is n R T times the logarithm of the ratio of the final to the initial volume (in SI units). */
  lemma IsothermalWork(inputs: Inputs, ln: real -> real)
    requires SolveTrabajoIsotermico(inputs, ln).Ok?
    ensures Si(inputs["volumen_inicial"]) != 0.0
    ensures var ratio := Si(inputs["volumen_final"]) / Si(inputs["volumen_inicial"]);
            SolveTrabajoIsotermico(inputs, ln).value.magnitude
            == Si(inputs["moles"]) * R.si * Si(inputs["temperatura"]) * ln(ratio)
  {
  }

  /** With all inputs present, the evaluation divides by zero exactly when the initial volume is zero. */
  lemma IsothermalZeroInitialVolume(inputs: Inputs, ln: real -> real)
    requires TrabajoIsotermicoHasAll(inputs)
    ensures SolveTrabajoIsotermico(inputs, ln) == Err(DivByZero) <==> inputs["volumen_inicial"].magnitude == 0.0
  {
    MeasureSign(inputs["volumen_inicial"]);
  }

  /** Amount, temperature and two volumes of the declared dimensions with a non-zero initial volume give a work in joule. */
  lemma TrabajoIsotermicoDimensions(inputs: Inputs, ln: real -> real)
    requires "moles" in inputs && inputs["moles"].unit.dim == Substance
    requires "temperatura" in inputs && inputs["temperatura"].unit.dim == Temperature
    requires "volumen_inicial" in inputs && inputs["volumen_inicial"].unit.dim == Volume
    requires inputs["volumen_inicial"].magnitude != 0.0
    requires "volumen_final" in inputs && inputs["volumen_final"].unit.dim == Volume
    ensures SolveTrabajoIsotermico(inputs, ln).Ok?
  {
    MeasureSign(inputs["volumen_inicial"]);
  }
  /**
    With every input present and exactly one of them, the `w`-th in
    declaration order, in a unit of another dimension than declared, the
    evaluation fails with a
    dimensionality error rather than giving a dimensionally wrong result
    (provided no division by zero comes first). A wrong volume is caught by
    the logarithm, which demands a dimensionless ratio; a wrong amount or
    temperature is caught by the conversion to joule.
   */
  lemma TrabajoIsotermicoWrongDimension(inputs: Inputs, ln: real -> real, w: nat)
    requires w < 4
    requires "moles" in inputs && (inputs["moles"].unit.dim == Substance <==> w != 0)
    requires "temperatura" in inputs && (inputs["temperatura"].unit.dim == Temperature <==> w != 1)
    requires "volumen_inicial" in inputs && (inputs["volumen_inicial"].unit.dim == Volume <==> w != 2)
    requires "volumen_final" in inputs && (inputs["volumen_final"].unit.dim == Volume <==> w != 3)
    requires inputs["volumen_inicial"].magnitude != 0.0
    ensures SolveTrabajoIsotermico(inputs, ln).Err? && SolveTrabajoIsotermico(inputs, ln).error.DimMismatch?
    ensures SolveTrabajoIsotermico(inputs, ln).error.to == (if w < 2 then Energy else Dimensionless)
  {
    var n, t, vi, vf := ToMeasure(inputs["moles"]), ToMeasure(inputs["temperatura"]), ToMeasure(inputs["volumen_inicial"]), ToMeasure(inputs["volumen_final"]);
    var ratio := Div(vf, vi);
    assert ratio.Ok? by {
      MeasureSign(inputs["volumen_inicial"]);
    }
    var l := Log(ratio.value, ln);
    assert SolveTrabajoIsotermico(inputs, ln)
           == if l.Err? then Err(l.error) else To(Mul(Mul(Mul(n, R), t), l.value), Joule) by {
      assert Get(inputs, "moles") == Ok(n);
      assert Get(inputs, "temperatura") == Ok(t);
      assert Get(inputs, "volumen_inicial") == Ok(vi);
      assert Get(inputs, "volumen_final") == Ok(vf);
    }
    IsothermalWrongDimension(w, n.dim, t.dim, vi.dim, vf.dim);
    if w < 2 {
      assert l.Ok?;
      assert Mul(Mul(Mul(n, R), t), l.value).dim != Energy;
    } else {
      assert l.Err?;
    }
  }

  /**
    With exactly the `w`-th dimension off its declared one, either the volume
    ratio is not dimensionless (a volume is off) or n R T is not an energy.
   */
  lemma IsothermalWrongDimension(w: nat, n: Dim, t: Dim, vi: Dim, vf: Dim)
    requires w < 4
    requires n == Substance <==> w != 0
    requires t == Temperature <==> w != 1
    requires vi == Volume <==> w != 2
    requires vf == Volume <==> w != 3
    ensures w < 2 ==> DimMul(DimMul(DimMul(n, MolarEnergyPerKelvin), t), Dimensionless) != Energy
    ensures w >= 2 ==> DimDiv(vf, vi) != Dimensionless
  {
    IsothermalWorkDimension(n, t, vi, vf);
    if w == 0 {
      assert n != Substance && t == Temperature;
    } else if w == 1 {
      assert n == Substance && t != Temperature;
    } else if w == 2 {
      assert vi != Volume && vf == Volume;
    } else {
      assert vi == Volume && vf != Volume;
    }
  }

  /**
    The volume ratio is dimensionless only when both volumes are volumes, and
    with a dimensionless logarithm n R T ln(.) is an energy only when n and T
    both have their declared dimensions, given either one.
   */
  lemma IsothermalWorkDimension(n: Dim, t: Dim, vi: Dim, vf: Dim)
    ensures DimDiv(vf, vi) == Dimensionless && vi == Volume ==> vf == Volume
    ensures DimDiv(vf, vi) == Dimensionless && vf == Volume ==> vi == Volume
    ensures var r := DimMul(DimMul(DimMul(n, MolarEnergyPerKelvin), t), Dimensionless);
            && (r == Energy && t == Temperature ==> n == Substance)
            && (r == Energy && n == Substance ==> t == Temperature)
  {
    var q := DimDiv(vf, vi);
    assert q.mass == vf.mass - vi.mass && q.length == vf.length - vi.length && q.time == vf.time - vi.time;
    assert q.temperature == vf.temperature - vi.temperature && q.substance == vf.substance - vi.substance;
    var r := DimMul(DimMul(DimMul(n, MolarEnergyPerKelvin), t), Dimensionless);
    assert r.mass == n.mass + t.mass + 1;
    assert r.length == n.length + t.length + 2;
    assert r.time == n.time + t.time - 2;
    assert r.temperature == n.temperature + t.temperature - 1;
    assert r.substance == n.substance + t.substance - 1;
  }

  /** Equal initial and final volumes (after SI normalisation) do no work, since ln 1 = 0. */
  lemma IsothermalNoVolumeChange(inputs: Inputs, ln: real -> real)
    requires ln(1.0) == 0.0
    requires "moles" in inputs && inputs["moles"].unit.dim == Substance
    requires "temperatura" in inputs && inputs["temperatura"].unit.dim == Temperature
    requires "volumen_inicial" in inputs && inputs["volumen_inicial"].unit.dim == Volume
    requires inputs["volumen_inicial"].magnitude != 0.0
    requires "volumen_final" in inputs && Si(inputs["volumen_final"]) == Si(inputs["volumen_inicial"])
    requires inputs["volumen_final"].unit.dim == Volume
    ensures SolveTrabajoIsotermico(inputs, ln) == Ok(Quantity(0.0, Joule))
  {
    TrabajoIsotermicoDimensions(inputs, ln);
    IsothermalWork(inputs, ln);
    var vi := Si(inputs["volumen_inicial"]);
    assert vi != 0.0;
    assert Si(inputs["volumen_final"]) / vi == 1.0;
  }

  /**
    For a positive amount at a positive temperature, an expansion
    (Vf > Vi > 0) gives positive work and a compression (0 < Vf < Vi)
    negative work.
   */
  lemma IsothermalWorkSign(inputs: Inputs, ln: real -> real)
    requires IsNaturalLog(ln)
    requires SolveTrabajoIsotermico(inputs, ln).Ok?
    requires inputs["moles"].magnitude > 0.0 && inputs["temperatura"].magnitude > 0.0
    requires Si(inputs["volumen_inicial"]) > 0.0 && Si(inputs["volumen_final"]) > 0.0
    ensures var w := SolveTrabajoIsotermico(inputs, ln).value.magnitude;
            && (Si(inputs["volumen_final"]) > Si(inputs["volumen_inicial"]) ==> w > 0.0)
            && (Si(inputs["volumen_final"]) < Si(inputs["volumen_inicial"]) ==> w < 0.0)
  {
    IsothermalWork(inputs, ln);
    MeasureSign(inputs["moles"]);
    MeasureSign(inputs["temperatura"]);
    ConstantsPositive();
    var vi, vf := Si(inputs["volumen_inicial"]), Si(inputs["volumen_final"]);
    var n, t := Si(inputs["moles"]), Si(inputs["temperatura"]);
    var nrt := n * R.si * t;
    assert n > 0.0 && R.si > 0.0 && t > 0.0;
    assert n * R.si > 0.0;
    assert nrt > 0.0;
    if vf > vi {
      assert vf / vi > 1.0;
      assert ln(vf / vi) > ln(1.0);
      assert nrt * ln(vf / vi) > 0.0;
    } else if vf < vi {
      assert 0.0 < vf / vi < 1.0;
      assert ln(vf / vi) < ln(1.0);
      assert nrt * ln(vf / vi) < 0.0;
    }
  }

  /** Two opposite ratios of positive volumes are positive and multiply to one. */
  lemma RatiosReciprocal(a: real, b: real)
    requires a > 0.0 && b > 0.0
    ensures a / b > 0.0 && b / a > 0.0
    ensures (a / b) * (b / a) == 1.0
  {
    var x, y := a / b, b / a;
    assert x * b == a && y * a == b;
    assert (x * y) * (a * b) == (x * b) * (y * a);
    assert a * b > 0.0;
  }

  /** The logarithms of two opposite ratios cancel. */
  lemma LogOfReciprocalRatios(ln: real -> real, a: real, b: real)
    requires IsNaturalLog(ln)
    requires a > 0.0 && b > 0.0
    ensures ln(a / b) + ln(b / a) == 0.0
  {
    RatiosReciprocal(a, b);
    LogOfProduct(ln, a / b, b / a);
  }

  /** The product rule at one pair of positive reals. */
  lemma LogOfProduct(ln: real -> real, x: real, y: real)
    requires IsNaturalLog(ln)
    requires x > 0.0 && y > 0.0
    ensures ln(x * y) == ln(x) + ln(y)
  {
  }

  /** The same inputs with the initial and final volumes exchanged: the reverse process. */
  function Reversed(inputs: Inputs): Inputs
    requires "volumen_inicial" in inputs && "volumen_final" in inputs
  {
    inputs["volumen_inicial" := inputs["volumen_final"]]["volumen_final" := inputs["volumen_inicial"]]
  }

  /** A process that can be evaluated can be evaluated in reverse, unless its final volume is zero. */
  lemma IsothermalReversible(inputs: Inputs, ln: real -> real)
    requires SolveTrabajoIsotermico(inputs, ln).Ok?
    requires inputs["volumen_final"].magnitude != 0.0
    ensures SolveTrabajoIsotermico(Reversed(inputs), ln).Ok?
  {
    var back := Reversed(inputs);
    assert back["volumen_inicial"] == inputs["volumen_final"] && back["volumen_final"] == inputs["volumen_inicial"];
    assert back["moles"] == inputs["moles"] && back["temperatura"] == inputs["temperatura"];
    MeasureSign(back["volumen_inicial"]);
  }

  /** Going from Vi to Vf and back again does no net work. */
  lemma IsothermalReversal(inputs: Inputs, ln: real -> real)
    requires IsNaturalLog(ln)
    requires SolveTrabajoIsotermico(inputs, ln).Ok?
    requires Si(inputs["volumen_inicial"]) > 0.0 && Si(inputs["volumen_final"]) > 0.0
    ensures SolveTrabajoIsotermico(Reversed(inputs), ln).Ok?
    ensures SolveTrabajoIsotermico(inputs, ln).value.magnitude
            + SolveTrabajoIsotermico(Reversed(inputs), ln).value.magnitude == 0.0
  {
    LogOfReciprocalRatios(ln, Si(inputs["volumen_final"]), Si(inputs["volumen_inicial"]));
    IsothermalNetWork(inputs, ln);
  }

  /**
    For any `ln` whose values at Vf/Vi and Vi/Vf cancel, the forward and the
    reverse work cancel.
   */
  lemma IsothermalNetWork(inputs: Inputs, ln: real -> real)
    requires SolveTrabajoIsotermico(inputs, ln).Ok?
    requires Si(inputs["volumen_inicial"]) > 0.0 && Si(inputs["volumen_final"]) > 0.0
    requires var vi, vf := Si(inputs["volumen_inicial"]), Si(inputs["volumen_final"]);
             ln(vf / vi) + ln(vi / vf) == 0.0
    ensures SolveTrabajoIsotermico(Reversed(inputs), ln).Ok?
    ensures SolveTrabajoIsotermico(inputs, ln).value.magnitude
            + SolveTrabajoIsotermico(Reversed(inputs), ln).value.magnitude == 0.0
  {
    var back := Reversed(inputs);
    var vi, vf := Si(inputs["volumen_inicial"]), Si(inputs["volumen_final"]);
    var nrt := Si(inputs["moles"]) * R.si * Si(inputs["temperatura"]);
    assert SolveTrabajoIsotermico(back, ln).Ok? by {
      MeasureSign(inputs["volumen_final"]);
      IsothermalReversible(inputs, ln);
    }
    assert SolveTrabajoIsotermico(inputs, ln).value.magnitude == nrt * ln(vf / vi) by {
      IsothermalWork(inputs, ln);
    }
    assert SolveTrabajoIsotermico(back, ln).value.magnitude == nrt * ln(vi / vf) by {
      assert Si(back["volumen_inicial"]) == vf && Si(back["volumen_final"]) == vi;
      assert back["moles"] == inputs["moles"] && back["temperatura"] == inputs["temperatura"];
      IsothermalWork(back, ln);
    }
    ScaledSumZero(nrt, ln(vf / vi), ln(vi / vf));
  }

  /** A common factor keeps a sum at zero. */
  lemma ScaledSumZero(k: real, a: real, b: real)
    requires a + b == 0.0
    ensures k * a + k * b == 0.0
  {
    assert k * a + k * b == k * (a + b);
  }

  // ---------------------------------------------------------------------
  // Boyle's law: P1 V1 = P2 V2, solved for V2
  // Name, declared inputs and target as in core/formulas/termodinamica.py:92-102.

  const LeyDeBoyleName := "Ley de Boyle"
  const LeyDeBoyleVariables := [
    VariableSpec("presion_inicial", "P_1", Pascal),
    VariableSpec("volumen_inicial", "V_1", Liter),
    VariableSpec("presion_final", "P_2", Pascal)
  ]
  const LeyDeBoyleTarget := VariableSpec("volumen_final", "V_2", Liter)

  /** All declared inputs are present, spelled out key by key so that reading them needs no unfolding of `Keys`. */
  predicate LeyDeBoyleHasAll(inputs: Inputs)
  {
    "presion_inicial" in inputs && "volumen_inicial" in inputs && "presion_final" in inputs
  }

  /** The declared keys, in declaration order; none is declared twice. */
  lemma LeyDeBoyleKeys()
    ensures Keys(LeyDeBoyleVariables) == ["presion_inicial", "volumen_inicial", "presion_final"]
    ensures Distinct(Keys(LeyDeBoyleVariables))
  {
  }

  /** The key-by-key spelling is the shared notion of all declared keys being present. */
  lemma LeyDeBoyleHasAllShared(inputs: Inputs)
    ensures LeyDeBoyleHasAll(inputs) <==> HasAll(inputs, Keys(LeyDeBoyleVariables))
  {
    LeyDeBoyleKeys();
  }

  /** Reads both pressures and the initial volume; a result is always in liter. */
  function SolveLeyDeBoyle(inputs: Inputs): (r: Result<Quantity>)
    ensures r.Ok? ==> LeyDeBoyleHasAll(inputs) && r.value.unit == Liter
  {
    var p1 :- Get(inputs, "presion_inicial");
    var v1 :- Get(inputs, "volumen_inicial");
    var p2 :- Get(inputs, "presion_final");
    var v2 :- Div(Mul(p1, v1), p2);
    To(v2, LeyDeBoyleTarget.unit)
  }

  /** Depends only on the declared keys' lookups: inputs that agree on them, in presence and SI value, give the same result. */
  lemma LeyDeBoyleReadsDeclared(a: Inputs, b: Inputs)
    requires forall k :: k in Keys(LeyDeBoyleVariables) ==> Get(a, k) == Get(b, k)
    ensures SolveLeyDeBoyle(a) == SolveLeyDeBoyle(b)
  {
    LeyDeBoyleKeys();
    assert Get(a, "presion_inicial") == Get(b, "presion_inicial");
    assert Get(a, "volumen_inicial") == Get(b, "volumen_inicial");
    assert Get(a, "presion_final") == Get(b, "presion_final");
  }

  /** Reads in declaration order: the first absent declared key is the one reported missing. */
  lemma LeyDeBoyleMissingKey(inputs: Inputs)
    ensures match FirstMissing(Keys(LeyDeBoyleVariables), inputs)
            case Some(k) => SolveLeyDeBoyle(inputs) == Err(MissingKey(k))
            case None => !(SolveLeyDeBoyle(inputs).Err? && SolveLeyDeBoyle(inputs).error.MissingKey?)
  {
    LeyDeBoyleKeys();
  }

  /** The returned volume satisfies P1 V1 = P2 V2 (in SI units). */
  lemma BoyleLaw(inputs: Inputs)
    requires SolveLeyDeBoyle(inputs).Ok?
    ensures Si(inputs["presion_inicial"]) * Si(inputs["volumen_inicial"])
            == Si(inputs["presion_final"]) * Si(SolveLeyDeBoyle(inputs).value)
  {
    var p1, v1, p2 := ToMeasure(inputs["presion_inicial"]), ToMeasure(inputs["volumen_inicial"]), ToMeasure(inputs["presion_final"]);
    DivCancels(Mul(p1, v1), p2);
  }

  /** With all inputs present, the evaluation divides by zero exactly when the final pressure is zero. */
  lemma BoyleZeroPressure(inputs: Inputs)
    requires LeyDeBoyleHasAll(inputs)
    ensures SolveLeyDeBoyle(inputs) == Err(DivByZero) <==> inputs["presion_final"].magnitude == 0.0
  {
    MeasureSign(inputs["presion_final"]);
  }

  /** Pressure times volume over pressure is a volume, so with a non-zero final pressure the conversion to liter succeeds. */
  lemma LeyDeBoyleDimensions(inputs: Inputs)
    requires "presion_inicial" in inputs && inputs["presion_inicial"].unit.dim == Pressure
    requires "volumen_inicial" in inputs && inputs["volumen_inicial"].unit.dim == Volume
    requires "presion_final" in inputs && inputs["presion_final"].unit.dim == Pressure
    requires inputs["presion_final"].magnitude != 0.0
    ensures SolveLeyDeBoyle(inputs).Ok?
  {
    MeasureSign(inputs["presion_final"]);
  }
  /**
    With every input present and exactly one of them, the `w`-th in
    declaration order, in a unit of another dimension than declared, the
    evaluation fails with a
    dimensionality error rather than giving a dimensionally wrong result
    (provided no division by zero comes first).
   */
  lemma LeyDeBoyleWrongDimension(inputs: Inputs, w: nat)
    requires w < 3
    requires "presion_inicial" in inputs && (inputs["presion_inicial"].unit.dim == Pressure <==> w != 0)
    requires "volumen_inicial" in inputs && (inputs["volumen_inicial"].unit.dim == Volume <==> w != 1)
    requires "presion_final" in inputs && (inputs["presion_final"].unit.dim == Pressure <==> w != 2)
    requires inputs["presion_final"].magnitude != 0.0
    ensures SolveLeyDeBoyle(inputs).Err? && SolveLeyDeBoyle(inputs).error.DimMismatch?
  {
    var p1, v1, p2 := ToMeasure(inputs["presion_inicial"]), ToMeasure(inputs["volumen_inicial"]), ToMeasure(inputs["presion_final"]);
    var q := Div(Mul(p1, v1), p2);
    assert q.Ok? && q.value.dim != Volume by {
      MeasureSign(inputs["presion_final"]);
      BoyleDimension(p1.dim, v1.dim, p2.dim);
    }
    assert SolveLeyDeBoyle(inputs) == To(q.value, Liter) by {
      assert Get(inputs, "presion_inicial") == Ok(p1);
      assert Get(inputs, "volumen_inicial") == Ok(v1);
      assert Get(inputs, "presion_final") == Ok(p2);
    }
  }

  /** When P1 V1 / P2 is a volume, any two of its inputs in their declared dimensions force the third. */
  lemma BoyleDimension(p1: Dim, v1: Dim, p2: Dim)
    ensures var r := DimDiv(DimMul(p1, v1), p2);
            && (r == Volume && v1 == Volume && p2 == Pressure ==> p1 == Pressure)
            && (r == Volume && p1 == Pressure && p2 == Pressure ==> v1 == Volume)
            && (r == Volume && p1 == Pressure && v1 == Volume ==> p2 == Pressure)
  {
    var r := DimDiv(DimMul(p1, v1), p2);
    assert r.mass == p1.mass + v1.mass - p2.mass;
    assert r.length == p1.length + v1.length - p2.length;
    assert r.time == p1.time + v1.time - p2.time;
    assert r.temperature == p1.temperature + v1.temperature - p2.temperature;
    assert r.substance == p1.substance + v1.substance - p2.substance;
  }

  /** Doubling the pressure on 2 liter, from 1 to 2 atmosphere, halves the volume to 1 liter. */
  lemma BoyleHalvesVolume()
    ensures SolveLeyDeBoyle(map["presion_inicial" := Quantity(1.0, Atmosphere),
                                "volumen_inicial" := Quantity(2.0, Liter),
                                "presion_final" := Quantity(2.0, Atmosphere)])
            == Ok(Quantity(1.0, Liter))
  {
    var inputs := map["presion_inicial" := Quantity(1.0, Atmosphere),
                      "volumen_inicial" := Quantity(2.0, Liter),
                      "presion_final" := Quantity(2.0, Atmosphere)];
    LeyDeBoyleDimensions(inputs);
    BoyleLaw(inputs);
    var v := SolveLeyDeBoyle(inputs).value;
    assert Si(inputs["presion_inicial"]) == 101325.0 && Si(inputs["volumen_inicial"]) == 0.002;
    assert Si(inputs["presion_final"]) == 202650.0;
    assert 202650.0 * (v.magnitude * 0.001) == 101325.0 * 0.002;
  }

  // ---------------------------------------------------------------------
  // Heat capacity: C = Q / dT
  // Name, declared inputs and target as in core/formulas/termodinamica.py:113-122.

  const CapacidadCalorificaName := "Capacidad Calorífica"
  const CapacidadCalorificaVariables := [
    VariableSpec("calor", "Q", Joule),
    VariableSpec("delta_temperatura", "\\Delta T", DeltaCelsius)
  ]
  const CapacidadCalorificaTarget := VariableSpec("capacidad_calorifica", "C", JoulePerDeltaCelsius)

  /** Reads heat and temperature change; a result is always in joule per delta degree Celsius. */
  function SolveCapacidadCalorifica(inputs: Inputs): (r: Result<Quantity>)
    ensures r.Ok? ==> "calor" in inputs && "delta_temperatura" in inputs && r.value.unit == JoulePerDeltaCelsius
  {
    var q :- Get(inputs, "calor");
    var dt :- Get(inputs, "delta_temperatura");
    var c :- Div(q, dt);
    To(c, CapacidadCalorificaTarget.unit)
  }

  /** The declared keys, in declaration order; none is declared twice. */
  lemma CapacidadCalorificaKeys()
    ensures Keys(CapacidadCalorificaVariables) == ["calor", "delta_temperatura"]
    ensures Distinct(Keys(CapacidadCalorificaVariables))
  {
  }

  /** Depends only on the declared keys' lookups: inputs that agree on them, in presence and SI value, give the same result. */
  lemma CapacidadCalorificaReadsDeclared(a: Inputs, b: Inputs)
    requires forall k :: k in Keys(CapacidadCalorificaVariables) ==> Get(a, k) == Get(b, k)
    ensures SolveCapacidadCalorifica(a) == SolveCapacidadCalorifica(b)
  {
    CapacidadCalorificaKeys();
    assert Get(a, "calor") == Get(b, "calor");
    assert Get(a, "delta_temperatura") == Get(b, "delta_temperatura");
  }

  /** Reads in declaration order: the first absent declared key is the one reported missing. */
  lemma CapacidadCalorificaMissingKey(inputs: Inputs)
    ensures match FirstMissing(Keys(CapacidadCalorificaVariables), inputs)
            case Some(k) => SolveCapacidadCalorifica(inputs) == Err(MissingKey(k))
            case None => !(SolveCapacidadCalorifica(inputs).Err? && SolveCapacidadCalorifica(inputs).error.MissingKey?)
  {
    CapacidadCalorificaKeys();
  }

  /** The returned capacity times the temperature change gives back the heat. */
  lemma HeatCapacity(inputs: Inputs)
    requires SolveCapacidadCalorifica(inputs).Ok?
    ensures SolveCapacidadCalorifica(inputs).value.magnitude * Si(inputs["delta_temperatura"]) == Si(inputs["calor"])
  {
    DivCancels(ToMeasure(inputs["calor"]), ToMeasure(inputs["delta_temperatura"]));
  }

  /** With both inputs present, the evaluation divides by zero exactly when the temperature change is zero. */
  lemma HeatCapacityZeroChange(inputs: Inputs)
    requires "calor" in inputs && "delta_temperatura" in inputs
    ensures SolveCapacidadCalorifica(inputs) == Err(DivByZero) <==> inputs["delta_temperatura"].magnitude == 0.0
  {
    MeasureSign(inputs["delta_temperatura"]);
  }

  /** An energy over a non-zero temperature change is a heat capacity, so the conversion succeeds. */
  lemma CapacidadCalorificaDimensions(inputs: Inputs)
    requires "calor" in inputs && inputs["calor"].unit.dim == Energy
    requires "delta_temperatura" in inputs && inputs["delta_temperatura"].unit.dim == Temperature
    requires inputs["delta_temperatura"].magnitude != 0.0
    ensures SolveCapacidadCalorifica(inputs).Ok?
  {
    MeasureSign(inputs["delta_temperatura"]);
  }
  /**
    With every input present and exactly one of them, the `w`-th in
    declaration order, in a unit of another dimension than declared, the
    evaluation fails with a
    dimensionality error rather than giving a dimensionally wrong result
    (provided no division by zero comes first).
   */
  lemma CapacidadCalorificaWrongDimension(inputs: Inputs, w: nat)
    requires w < 2
    requires "calor" in inputs && (inputs["calor"].unit.dim == Energy <==> w != 0)
    requires "delta_temperatura" in inputs && (inputs["delta_temperatura"].unit.dim == Temperature <==> w != 1)
    requires inputs["delta_temperatura"].magnitude != 0.0
    ensures SolveCapacidadCalorifica(inputs).Err? && SolveCapacidadCalorifica(inputs).error.DimMismatch?
  {
    MeasureSign(inputs["delta_temperatura"]);
  }

  // ---------------------------------------------------------------------
  // Charles's law: V1 / T1 = V2 / T2, solved for V2
  // Name, declared inputs and target as in core/formulas/termodinamica.py:132-142.

  const LeyDeCharlesName := "Ley de Charles"
  const LeyDeCharlesVariables := [
    VariableSpec("volumen_1", "V_1", Liter),
    VariableSpec("temperatura_1", "T_1", Kelvin),
    VariableSpec("temperatura_2", "T_2", Kelvin)
  ]
  const LeyDeCharlesTarget := VariableSpec("volumen_2", "V_2", Liter)

  /** All declared inputs are present, spelled out key by key so that reading them needs no unfolding of `Keys`. */
  predicate LeyDeCharlesHasAll(inputs: Inputs)
  {
    "volumen_1" in inputs && "temperatura_1" in inputs && "temperatura_2" in inputs
  }

  /** The declared keys, in declaration order; none is declared twice. */
  lemma LeyDeCharlesKeys()
    ensures Keys(LeyDeCharlesVariables) == ["volumen_1", "temperatura_1", "temperatura_2"]
    ensures Distinct(Keys(LeyDeCharlesVariables))
  {
  }

  /** The key-by-key spelling is the shared notion of all declared keys being present. */
  lemma LeyDeCharlesHasAllShared(inputs: Inputs)
    ensures LeyDeCharlesHasAll(inputs) <==> HasAll(inputs, Keys(LeyDeCharlesVariables))
  {
    LeyDeCharlesKeys();
  }

  /** Reads the first volume and both temperatures; a result is always in liter. */
  function SolveLeyDeCharles(inputs: Inputs): (r: Result<Quantity>)
    ensures r.Ok? ==> LeyDeCharlesHasAll(inputs) && r.value.unit == Liter
  {
    var v1 :- Get(inputs, "volumen_1");
    var t1 :- Get(inputs, "temperatura_1");
    var t2 :- Get(inputs, "temperatura_2");
    var v2 :- Div(Mul(v1, t2), t1);
    To(v2, LeyDeCharlesTarget.unit)
  }

  /** Depends only on the declared keys' lookups: inputs that agree on them, in presence and SI value, give the same result. */
  lemma LeyDeCharlesReadsDeclared(a: Inputs, b: Inputs)
    requires forall k :: k in Keys(LeyDeCharlesVariables) ==> Get(a, k) == Get(b, k)
    ensures SolveLeyDeCharles(a) == SolveLeyDeCharles(b)
  {
    LeyDeCharlesKeys();
    assert Get(a, "volumen_1") == Get(b, "volumen_1");
    assert Get(a, "temperatura_1") == Get(b, "temperatura_1");
    assert Get(a, "temperatura_2") == Get(b, "temperatura_2");
  }

  /** Reads in declaration order: the first absent declared key is the one reported missing. */
  lemma LeyDeCharlesMissingKey(inputs: Inputs)
    ensures match FirstMissing(Keys(LeyDeCharlesVariables), inputs)
            case Some(k) => SolveLeyDeCharles(inputs) == Err(MissingKey(k))
            case None => !(SolveLeyDeCharles(inputs).Err? && SolveLeyDeCharles(inputs).error.MissingKey?)
  {
    LeyDeCharlesKeys();
  }

  /** Cross-multiplied equal products give equal ratios. */
  lemma EqualRatios(a: real, b: real, c: real, d: real)
    requires b != 0.0 && d != 0.0
    requires a * d == c * b
    ensures a / b == c / d
  {
    var x, y := a / b, c / d;
    assert x * b == a && y * d == c;
    assert x * (b * d) == y * (b * d);
    assert b * d != 0.0;
  }

  /** The returned volume satisfies V1 T2 = V2 T1, that is V1 / T1 = V2 / T2 (in SI units). */
  lemma CharlesLaw(inputs: Inputs)
    requires SolveLeyDeCharles(inputs).Ok?
    ensures Si(inputs["temperatura_1"]) != 0.0
    ensures Si(inputs["temperatura_2"]) != 0.0 ==>
              Si(inputs["volumen_1"]) / Si(inputs["temperatura_1"])
              == Si(SolveLeyDeCharles(inputs).value) / Si(inputs["temperatura_2"])
    ensures Si(inputs["volumen_1"]) * Si(inputs["temperatura_2"])
            == Si(SolveLeyDeCharles(inputs).value) * Si(inputs["temperatura_1"])
  {
    var v1, t1, t2 := ToMeasure(inputs["volumen_1"]), ToMeasure(inputs["temperatura_1"]), ToMeasure(inputs["temperatura_2"]);
    DivCancels(Mul(v1, t2), t1);
    var v2 := Si(SolveLeyDeCharles(inputs).value);
    assert v1.si * t2.si == v2 * t1.si;
    if t2.si != 0.0 {
      EqualRatios(v1.si, t1.si, v2, t2.si);
    }
  }

  /** With all inputs present, the evaluation divides by zero exactly when the first temperature is zero. */
  lemma CharlesZeroTemperature(inputs: Inputs)
    requires LeyDeCharlesHasAll(inputs)
    ensures SolveLeyDeCharles(inputs) == Err(DivByZero) <==> inputs["temperatura_1"].magnitude == 0.0
  {
    MeasureSign(inputs["temperatura_1"]);
  }

  /** Volume times temperature over a non-zero temperature is a volume, so the conversion to liter succeeds. */
  lemma LeyDeCharlesDimensions(inputs: Inputs)
    requires "volumen_1" in inputs && inputs["volumen_1"].unit.dim == Volume
    requires "temperatura_1" in inputs && inputs["temperatura_1"].unit.dim == Temperature
    requires inputs["temperatura_1"].magnitude != 0.0
    requires "temperatura_2" in inputs && inputs["temperatura_2"].unit.dim == Temperature
    ensures SolveLeyDeCharles(inputs).Ok?
  {
    MeasureSign(inputs["temperatura_1"]);
  }
  /**
    With every input present and exactly one of them, the `w`-th in
    declaration order, in a unit of another dimension than declared, the
    evaluation fails with a
    dimensionality error rather than giving a dimensionally wrong result
    (provided no division by zero comes first).
   */
  lemma LeyDeCharlesWrongDimension(inputs: Inputs, w: nat)
    requires w < 3
    requires "volumen_1" in inputs && (inputs["volumen_1"].unit.dim == Volume <==> w != 0)
    requires "temperatura_1" in inputs && (inputs["temperatura_1"].unit.dim == Temperature <==> w != 1)
    requires "temperatura_2" in inputs && (inputs["temperatura_2"].unit.dim == Temperature <==> w != 2)
    requires inputs["temperatura_1"].magnitude != 0.0
    ensures SolveLeyDeCharles(inputs).Err? && SolveLeyDeCharles(inputs).error.DimMismatch?
  {
    var v1, t1, t2 := ToMeasure(inputs["volumen_1"]), ToMeasure(inputs["temperatura_1"]), ToMeasure(inputs["temperatura_2"]);
    var q := Div(Mul(v1, t2), t1);
    assert q.Ok? && q.value.dim != Volume by {
      MeasureSign(inputs["temperatura_1"]);
      CharlesDimension(v1.dim, t1.dim, t2.dim);
    }
    assert SolveLeyDeCharles(inputs) == To(q.value, Liter) by {
      assert Get(inputs, "volumen_1") == Ok(v1);
      assert Get(inputs, "temperatura_1") == Ok(t1);
      assert Get(inputs, "temperatura_2") == Ok(t2);
    }
  }

  /** When V1 T2 / T1 is a volume, any two of its inputs in their declared dimensions force the third. */
  lemma CharlesDimension(v1: Dim, t1: Dim, t2: Dim)
    ensures var r := DimDiv(DimMul(v1, t2), t1);
            && (r == Volume && t1 == Temperature && t2 == Temperature ==> v1 == Volume)
            && (r == Volume && v1 == Volume && t2 == Temperature ==> t1 == Temperature)
            && (r == Volume && v1 == Volume && t1 == Temperature ==> t2 == Temperature)
  {
    var r := DimDiv(DimMul(v1, t2), t1);
    assert r.mass == v1.mass + t2.mass - t1.mass;
    assert r.length == v1.length + t2.length - t1.length;
    assert r.time == v1.time + t2.time - t1.time;
    assert r.temperature == v1.temperature + t2.temperature - t1.temperature;
    assert r.substance == v1.substance + t2.substance - t1.substance;
  }

  /** Heating 1 liter from 300 K to 600 K doubles it to 2 liter. */
  lemma CharlesDoublesVolume()
    ensures SolveLeyDeCharles(map["volumen_1" := Quantity(1.0, Liter),
                                  "temperatura_1" := Quantity(300.0, Kelvin),
                                  "temperatura_2" := Quantity(600.0, Kelvin)])
            == Ok(Quantity(2.0, Liter))
  {
    var inputs := map["volumen_1" := Quantity(1.0, Liter),
                      "temperatura_1" := Quantity(300.0, Kelvin),
                      "temperatura_2" := Quantity(600.0, Kelvin)];
    LeyDeCharlesDimensions(inputs);
    CharlesLaw(inputs);
    var v := SolveLeyDeCharles(inputs).value;
    assert Si(inputs["volumen_1"]) == 0.001 && Si(inputs["temperatura_1"]) == 300.0 && Si(inputs["temperatura_2"]) == 600.0;
    assert 0.001 * 600.0 == (v.magnitude * 0.001) * 300.0;
  }
}
