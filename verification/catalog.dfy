/**
  The catalog as the application sees it: the ten formulas in the order
  they are discovered, each formula's declaration and evaluation reached
  through one `Formula` value, and the name-keyed registry the main window
  builds from the discovered list.
 */
module Catalog {
  import opened Units
  import opened Quantities
  import opened BaseFormula
  import Calorimetria
  import Termodinamica

  /** One constructor per formula class. */
  datatype Formula =
    | CalorEspecifico
    | DilatacionLineal
    | EquilibrioTermico
    | CapacidadCalorifica
    | EnergiaCineticaMedia
    | LeyDeBoyle
    | LeyDeCharles
    | LeyGasesIdeales
    | PrimeraLeyTermodinamica
    | TrabajoIsotermico

  /** The display name, which is also the registry key. */
  function Name(f: Formula): string
  {
    match f
    case CalorEspecifico => Calorimetria.CalorEspecificoName
    case DilatacionLineal => Calorimetria.DilatacionLinealName
    case EquilibrioTermico => Calorimetria.EquilibrioTermicoName
    case CapacidadCalorifica => Termodinamica.CapacidadCalorificaName
    case EnergiaCineticaMedia => Termodinamica.EnergiaCineticaMediaName
    case LeyDeBoyle => Termodinamica.LeyDeBoyleName
    case LeyDeCharles => Termodinamica.LeyDeCharlesName
    case LeyGasesIdeales => Termodinamica.LeyGasesIdealesName
    case PrimeraLeyTermodinamica => Termodinamica.PrimeraLeyTermodinamicaName
    case TrabajoIsotermico => Termodinamica.TrabajoIsotermicoName
  }

  /** The declared inputs, in the order `solve` reads them; no key is declared twice. */
  function Variables(f: Formula): (vs: seq<VariableSpec>)
    ensures Distinct(Keys(vs))
  {
    match f
    case CalorEspecifico => Calorimetria.CalorEspecificoKeys(); Calorimetria.CalorEspecificoVariables
    case DilatacionLineal => Calorimetria.DilatacionLinealKeys(); Calorimetria.DilatacionLinealVariables
    case EquilibrioTermico => Calorimetria.EquilibrioTermicoKeys(); Calorimetria.EquilibrioTermicoVariables
    case CapacidadCalorifica => Termodinamica.CapacidadCalorificaKeys(); Termodinamica.CapacidadCalorificaVariables
    case EnergiaCineticaMedia => Termodinamica.EnergiaCineticaMediaKeys(); Termodinamica.EnergiaCineticaMediaVariables
    case LeyDeBoyle => Termodinamica.LeyDeBoyleKeys(); Termodinamica.LeyDeBoyleVariables
    case LeyDeCharles => Termodinamica.LeyDeCharlesKeys(); Termodinamica.LeyDeCharlesVariables
    case LeyGasesIdeales => Termodinamica.LeyGasesIdealesKeys(); Termodinamica.LeyGasesIdealesVariables
    case PrimeraLeyTermodinamica => Termodinamica.PrimeraLeyTermodinamicaKeys(); Termodinamica.PrimeraLeyTermodinamicaVariables
    case TrabajoIsotermico => Termodinamica.TrabajoIsotermicoKeys(); Termodinamica.TrabajoIsotermicoVariables
  }

  /** The declared result, whose key is not one of the inputs' keys. */
  function Target(f: Formula): (t: VariableSpec)
    ensures t.key !in Keys(Variables(f))
  {
    match f
    case CalorEspecifico => Calorimetria.CalorEspecificoKeys(); Calorimetria.CalorEspecificoTarget
    case DilatacionLineal => Calorimetria.DilatacionLinealKeys(); Calorimetria.DilatacionLinealTarget
    case EquilibrioTermico => Calorimetria.EquilibrioTermicoKeys(); Calorimetria.EquilibrioTermicoTarget
    case CapacidadCalorifica => Termodinamica.CapacidadCalorificaKeys(); Termodinamica.CapacidadCalorificaTarget
    case EnergiaCineticaMedia => Termodinamica.EnergiaCineticaMediaKeys(); Termodinamica.EnergiaCineticaMediaTarget
    case LeyDeBoyle => Termodinamica.LeyDeBoyleKeys(); Termodinamica.LeyDeBoyleTarget
    case LeyDeCharles => Termodinamica.LeyDeCharlesKeys(); Termodinamica.LeyDeCharlesTarget
    case LeyGasesIdeales => Termodinamica.LeyGasesIdealesKeys(); Termodinamica.LeyGasesIdealesTarget
    case PrimeraLeyTermodinamica => Termodinamica.PrimeraLeyTermodinamicaKeys(); Termodinamica.PrimeraLeyTermodinamicaTarget
    case TrabajoIsotermico => Termodinamica.TrabajoIsotermicoKeys(); Termodinamica.TrabajoIsotermicoTarget
  }

  /**
    Evaluates a formula. `ln` is the numerical library's natural logarithm;
    only the isothermal work uses it. A result is always in the target's
    declared unit.
   */
  function Solve(f: Formula, inputs: Inputs, ln: real -> real): (r: Result<Quantity>)
    ensures r.Ok? ==> r.value.unit == Target(f).unit
  {
    match f
    case CalorEspecifico => Calorimetria.SolveCalorEspecifico(inputs)
    case DilatacionLineal => Calorimetria.SolveDilatacionLineal(inputs)
    case EquilibrioTermico => Calorimetria.SolveEquilibrioTermico(inputs)
    case CapacidadCalorifica => Termodinamica.SolveCapacidadCalorifica(inputs)
    case EnergiaCineticaMedia => Termodinamica.SolveEnergiaCineticaMedia(inputs)
    case LeyDeBoyle => Termodinamica.SolveLeyDeBoyle(inputs)
    case LeyDeCharles => Termodinamica.SolveLeyDeCharles(inputs)
    case LeyGasesIdeales => Termodinamica.SolveLeyGasesIdeales(inputs)
    case PrimeraLeyTermodinamica => Termodinamica.SolvePrimeraLeyTermodinamica(inputs)
    case TrabajoIsotermico => Termodinamica.SolveTrabajoIsotermico(inputs, ln)
  }

  /**
    The formulas in discovery order: the calorimetry module before the
    thermodynamics module, and within each module the classes sorted by name.
   */
  const Discovered: seq<Formula> := [
    CalorEspecifico, DilatacionLineal, EquilibrioTermico,
    CapacidadCalorifica, EnergiaCineticaMedia, LeyDeBoyle, LeyDeCharles,
    LeyGasesIdeales, PrimeraLeyTermodinamica, TrabajoIsotermico
  ]

  /** Where a formula stands in the discovery order. */
  function Position(f: Formula): (i: nat)
    ensures i < |Discovered| && Discovered[i] == f
  {
    match f
    case CalorEspecifico => 0
    case DilatacionLineal => 1
    case EquilibrioTermico => 2
    case CapacidadCalorifica => 3
    case EnergiaCineticaMedia => 4
    case LeyDeBoyle => 5
    case LeyDeCharles => 6
    case LeyGasesIdeales => 7
    case PrimeraLeyTermodinamica => 8
    case TrabajoIsotermico => 9
  }

  /** Every formula is discovered exactly once. */
  lemma DiscoveredOnce(f: Formula)
    ensures multiset(Discovered)[f] == 1
  {
  }

  /**
    The name-keyed registry: each formula is entered under its name in list
    order, so a later formula with the same name replaces an earlier one.
   */
  function Registry(fs: seq<Formula>): (reg: map<string, Formula>)
    ensures forall name :: name in reg ==> Name(reg[name]) == name
  {
    if fs == [] then map[]
    else Registry(fs[..|fs| - 1])[Name(fs[|fs| - 1]) := fs[|fs| - 1]]
  }

  /** The registry's keys are exactly the names of the listed formulas. */
  lemma {:induction false} RegistryKeys(fs: seq<Formula>)
    ensures Registry(fs).Keys == set f | f in fs :: Name(f)
  {
    if fs != [] {
      var init, last := fs[..|fs| - 1], fs[|fs| - 1];
      RegistryKeys(init);
      assert fs == init + [last];
      assert (set f | f in fs :: Name(f)) == (set f | f in init :: Name(f)) + {Name(last)};
    }
  }

  /** The registry keeps the last listed formula under each name. */
  lemma {:induction false} RegistryLastWins(fs: seq<Formula>, i: nat)
    requires i < |fs|
    requires forall j :: i < j < |fs| ==> Name(fs[j]) != Name(fs[i])
    ensures Name(fs[i]) in Registry(fs) && Registry(fs)[Name(fs[i])] == fs[i]
  {
    if i < |fs| - 1 {
      RegistryLastWins(fs[..|fs| - 1], i);
    }
  }

  /** No two formulas share a name. */
  predicate NamesDistinct(fs: seq<Formula>)
  {
    forall i, j :: 0 <= i < j < |fs| ==> Name(fs[i]) != Name(fs[j])
  }

  /** With distinct names no formula is dropped: each is registered under its own name. */
  lemma RegistryKeepsAll(fs: seq<Formula>)
    requires NamesDistinct(fs)
    ensures forall i :: 0 <= i < |fs| ==> Name(fs[i]) in Registry(fs) && Registry(fs)[Name(fs[i])] == fs[i]
  {
    forall i | 0 <= i < |fs|
      ensures Name(fs[i]) in Registry(fs) && Registry(fs)[Name(fs[i])] == fs[i]
    {
      RegistryLastWins(fs, i);
    }
  }

  /** Different formulas have different display names. */
  lemma NameInjective(f: Formula, g: Formula)
    ensures Name(f) == Name(g) <==> f == g
  {
  }

  /** The ten names of the catalog are pairwise distinct. */
  lemma DiscoveredNamesDistinct()
    ensures NamesDistinct(Discovered)
  {
  }

  /** The registry the application builds holds all ten formulas, each under its own name. */
  lemma RegistryComplete(f: Formula)
    ensures Name(f) in Registry(Discovered) && Registry(Discovered)[Name(f)] == f
  {
    DiscoveredNamesDistinct();
    RegistryKeepsAll(Discovered);
    assert Discovered[Position(f)] == f;
  }

  /** Registry lookup by name; an unknown name is an error value. */
  function Lookup(name: string): (r: Result<Formula>)
    ensures r.Ok? ==> Name(r.value) == name
    ensures r.Err? ==> r.error == NotFound(name)
  {
    var reg := Registry(Discovered);
    if name in reg then Ok(reg[name]) else Err(NotFound(name))
  }

  /** Looking up a formula's name finds that formula, and only the ten names are found. */
  lemma LookupByName(name: string)
    ensures Lookup(name).Ok? <==> exists f :: Name(f) == name
    ensures forall f :: Name(f) == name ==> Lookup(name) == Ok(f)
  {
    RegistryKeys(Discovered);
    forall f | Name(f) == name ensures Lookup(name) == Ok(f) {
      RegistryComplete(f);
    }
    if Lookup(name).Ok? {
      assert Name(Lookup(name).value) == name;
    }
  }

  /**
    A missing input is reported by key: when declared inputs are absent the
    evaluation fails naming the first of them in declaration order, and when
    none is absent it never fails for a missing key.
   */
  lemma MissingKeyReported(f: Formula, inputs: Inputs, ln: real -> real)
    ensures match FirstMissing(Keys(Variables(f)), inputs)
            case Some(k) => Solve(f, inputs, ln) == Err(MissingKey(k))
            case None => !(Solve(f, inputs, ln).Err? && Solve(f, inputs, ln).error.MissingKey?)
  {
    match f
    case CalorEspecifico => Calorimetria.CalorEspecificoMissingKey(inputs);
    case DilatacionLineal => Calorimetria.DilatacionLinealMissingKey(inputs);
    case EquilibrioTermico => Calorimetria.EquilibrioTermicoMissingKey(inputs);
    case CapacidadCalorifica => Termodinamica.CapacidadCalorificaMissingKey(inputs);
    case EnergiaCineticaMedia => Termodinamica.EnergiaCineticaMediaMissingKey(inputs);
    case LeyDeBoyle => Termodinamica.LeyDeBoyleMissingKey(inputs);
    case LeyDeCharles => Termodinamica.LeyDeCharlesMissingKey(inputs);
    case LeyGasesIdeales => Termodinamica.LeyGasesIdealesMissingKey(inputs);
    case PrimeraLeyTermodinamica => Termodinamica.PrimeraLeyTermodinamicaMissingKey(inputs);
    case TrabajoIsotermico => Termodinamica.TrabajoIsotermicoMissingKey(inputs, ln);
  }

  /**
    Two input mappings that agree on which declared keys are present and on
    the SI value of each present one give the same result: the choice of input
    unit does not matter, and undeclared keys are ignored.
   */
  lemma SolveDependsOnlyOnMeasures(f: Formula, a: Inputs, b: Inputs, ln: real -> real)
    requires forall k :: k in Keys(Variables(f)) ==> (k in a <==> k in b)
    requires forall k :: k in Keys(Variables(f)) && k in a ==> ToMeasure(a[k]) == ToMeasure(b[k])
    ensures Solve(f, a, ln) == Solve(f, b, ln)
  {
    match f
    case CalorEspecifico => Calorimetria.CalorEspecificoReadsDeclared(a, b);
    case DilatacionLineal => Calorimetria.DilatacionLinealReadsDeclared(a, b);
    case EquilibrioTermico => Calorimetria.EquilibrioTermicoReadsDeclared(a, b);
    case CapacidadCalorifica => Termodinamica.CapacidadCalorificaReadsDeclared(a, b);
    case EnergiaCineticaMedia => Termodinamica.EnergiaCineticaMediaReadsDeclared(a, b);
    case LeyDeBoyle => Termodinamica.LeyDeBoyleReadsDeclared(a, b);
    case LeyDeCharles => Termodinamica.LeyDeCharlesReadsDeclared(a, b);
    case LeyGasesIdeales => Termodinamica.LeyGasesIdealesReadsDeclared(a, b);
    case PrimeraLeyTermodinamica => Termodinamica.PrimeraLeyTermodinamicaReadsDeclared(a, b);
    case TrabajoIsotermico => Termodinamica.TrabajoIsotermicoReadsDeclared(a, b, ln);
  }

  /** The declared inputs a formula divides by; a zero magnitude in any of them is a division by zero. */
  function Divisors(f: Formula): seq<string>
  {
    match f
    case EquilibrioTermico => ["masa_2", "calor_especifico_2"]
    case CapacidadCalorifica => ["delta_temperatura"]
    case LeyDeBoyle => ["presion_final"]
    case LeyDeCharles => ["temperatura_1"]
    case LeyGasesIdeales => ["presion"]
    case TrabajoIsotermico => ["volumen_inicial"]
    case _ => []
  }

  /** No declared divisor is supplied with a zero magnitude. */
  predicate NoZeroDivisor(f: Formula, inputs: Inputs)
  {
    forall k :: k in Divisors(f) ==> k in inputs && inputs[k].magnitude != 0.0
  }

  /**
    Dimensional consistency of the catalog: when every declared input is
    supplied in a unit of its declared dimension and no divisor is zero, the
    evaluation succeeds.
   */
  lemma ConformingInputsSucceed(f: Formula, inputs: Inputs, ln: real -> real)
    requires Conforms(inputs, Variables(f))
    requires NoZeroDivisor(f, inputs)
    ensures Solve(f, inputs, ln).Ok?
  {
    var vs := Variables(f);
    match f
    case CalorEspecifico =>
      assert vs[0].key == "masa" && vs[1].key == "calor_especifico" && vs[2].key == "delta_temperatura";
      Calorimetria.CalorEspecificoDimensions(inputs);
    case DilatacionLineal =>
      assert vs[0].key == "longitud_inicial" && vs[1].key == "coeficiente_dilatacion" && vs[2].key == "delta_temperatura";
      Calorimetria.DilatacionLinealDimensions(inputs);
    case EquilibrioTermico =>
      assert vs[0].key == "masa_1" && vs[1].key == "calor_especifico_1" && vs[2].key == "delta_T1";
      assert vs[3].key == "masa_2" && vs[4].key == "calor_especifico_2";
      assert inputs["masa_2"].magnitude != 0.0 && inputs["calor_especifico_2"].magnitude != 0.0;
      Calorimetria.EquilibrioTermicoDimensions(inputs);
    case CapacidadCalorifica =>
      assert vs[0].key == "calor" && vs[1].key == "delta_temperatura";
      assert inputs["delta_temperatura"].magnitude != 0.0;
      Termodinamica.CapacidadCalorificaDimensions(inputs);
    case EnergiaCineticaMedia =>
      assert vs[0].key == "temperatura";
      Termodinamica.EnergiaCineticaMediaDimensions(inputs);
    case LeyDeBoyle =>
      assert vs[0].key == "presion_inicial" && vs[1].key == "volumen_inicial" && vs[2].key == "presion_final";
      assert inputs["presion_final"].magnitude != 0.0;
      Termodinamica.LeyDeBoyleDimensions(inputs);
    case LeyDeCharles =>
      assert vs[0].key == "volumen_1" && vs[1].key == "temperatura_1" && vs[2].key == "temperatura_2";
      assert inputs["temperatura_1"].magnitude != 0.0;
      Termodinamica.LeyDeCharlesDimensions(inputs);
    case LeyGasesIdeales =>
      assert vs[0].key == "moles" && vs[1].key == "temperatura" && vs[2].key == "presion";
      assert inputs["presion"].magnitude != 0.0;
      Termodinamica.LeyGasesIdealesDimensions(inputs);
    case PrimeraLeyTermodinamica =>
      assert vs[0].key == "calor" && vs[1].key == "trabajo";
      Termodinamica.FirstLawDimensionError(inputs);
    case TrabajoIsotermico =>
      assert vs[0].key == "moles" && vs[1].key == "temperatura";
      assert vs[2].key == "volumen_inicial" && vs[3].key == "volumen_final";
      assert inputs["volumen_inicial"].magnitude != 0.0;
      Termodinamica.TrabajoIsotermicoDimensions(inputs, ln);
  }

  /**
    The converse of `ConformingInputsSucceed`: when every declared input is
    supplied and exactly one of them, the `i`-th, is in a unit of another
    dimension than declared, the evaluation fails with a dimensionality error
    instead of returning a dimensionally wrong result (a zero divisor is
    excluded because its error comes first).
   */
  lemma WrongDimensionFails(f: Formula, inputs: Inputs, ln: real -> real, i: nat)
    requires i < |Variables(f)|
    requires ConformsExcept(inputs, Variables(f), i)
    requires NoZeroDivisor(f, inputs)
    ensures Solve(f, inputs, ln).Err? && Solve(f, inputs, ln).error.DimMismatch?
  {
    var vs := Variables(f);
    match f
    case CalorEspecifico =>
      assert vs[0].key == "masa" && vs[1].key == "calor_especifico" && vs[2].key == "delta_temperatura";
      Calorimetria.CalorEspecificoWrongDimension(inputs, i);
    case DilatacionLineal =>
      assert vs[0].key == "longitud_inicial" && vs[1].key == "coeficiente_dilatacion" && vs[2].key == "delta_temperatura";
      Calorimetria.DilatacionLinealWrongDimension(inputs, i);
    case EquilibrioTermico =>
      assert vs[0].key == "masa_1" && vs[1].key == "calor_especifico_1" && vs[2].key == "delta_T1";
      assert vs[3].key == "masa_2" && vs[4].key == "calor_especifico_2";
      assert inputs["masa_2"].magnitude != 0.0 && inputs["calor_especifico_2"].magnitude != 0.0;
      Calorimetria.EquilibrioTermicoWrongDimension(inputs, i);
    case CapacidadCalorifica =>
      assert vs[0].key == "calor" && vs[1].key == "delta_temperatura";
      assert inputs["delta_temperatura"].magnitude != 0.0;
      Termodinamica.CapacidadCalorificaWrongDimension(inputs, i);
    case EnergiaCineticaMedia =>
      assert vs[0].key == "temperatura" && i == 0;
      Termodinamica.EnergiaCineticaMediaWrongDimension(inputs);
    case LeyDeBoyle =>
      assert vs[0].key == "presion_inicial" && vs[1].key == "volumen_inicial" && vs[2].key == "presion_final";
      assert inputs["presion_final"].magnitude != 0.0;
      Termodinamica.LeyDeBoyleWrongDimension(inputs, i);
    case LeyDeCharles =>
      assert vs[0].key == "volumen_1" && vs[1].key == "temperatura_1" && vs[2].key == "temperatura_2";
      assert inputs["temperatura_1"].magnitude != 0.0;
      Termodinamica.LeyDeCharlesWrongDimension(inputs, i);
    case LeyGasesIdeales =>
      assert vs[0].key == "moles" && vs[1].key == "temperatura" && vs[2].key == "presion";
      assert inputs["presion"].magnitude != 0.0;
      Termodinamica.LeyGasesIdealesWrongDimension(inputs, i);
    case PrimeraLeyTermodinamica =>
      assert vs[0].key == "calor" && vs[1].key == "trabajo";
      Termodinamica.PrimeraLeyTermodinamicaWrongDimension(inputs, i);
    case TrabajoIsotermico =>
      assert vs[0].key == "moles" && vs[1].key == "temperatura";
      assert vs[2].key == "volumen_inicial" && vs[3].key == "volumen_final";
      assert inputs["volumen_inicial"].magnitude != 0.0;
      Termodinamica.TrabajoIsotermicoWrongDimension(inputs, ln, i);
  }

  /**
    With every declared input in a unit of its declared dimension, a zero
    divisor is the only way the evaluation can fail.
   */
  lemma ConformingInputsZeroDivisor(f: Formula, inputs: Inputs, ln: real -> real)
    requires Conforms(inputs, Variables(f))
    requires !NoZeroDivisor(f, inputs)
    ensures Solve(f, inputs, ln) == Err(DivByZero)
  {
    var vs := Variables(f);
    assert forall i :: 0 <= i < |vs| ==> vs[i].key in inputs;
    match f
    case CalorEspecifico => assert false;
    case DilatacionLineal => assert false;
    case EnergiaCineticaMedia => assert false;
    case PrimeraLeyTermodinamica => assert false;
    case EquilibrioTermico =>
      assert vs[0].key == "masa_1" && vs[1].key == "calor_especifico_1" && vs[2].key == "delta_T1";
      assert vs[3].key == "masa_2" && vs[4].key == "calor_especifico_2";
      assert inputs["masa_2"].magnitude == 0.0 || inputs["calor_especifico_2"].magnitude == 0.0;
      Calorimetria.EquilibriumZeroDivisor(inputs);
    case CapacidadCalorifica =>
      assert vs[0].key == "calor" && vs[1].key == "delta_temperatura";
      assert inputs["delta_temperatura"].magnitude == 0.0;
      Termodinamica.HeatCapacityZeroChange(inputs);
    case LeyDeBoyle =>
      assert vs[0].key == "presion_inicial" && vs[1].key == "volumen_inicial" && vs[2].key == "presion_final";
      assert inputs["presion_final"].magnitude == 0.0;
      Termodinamica.BoyleZeroPressure(inputs);
    case LeyDeCharles =>
      assert vs[0].key == "volumen_1" && vs[1].key == "temperatura_1" && vs[2].key == "temperatura_2";
      assert inputs["temperatura_1"].magnitude == 0.0;
      Termodinamica.CharlesZeroTemperature(inputs);
    case LeyGasesIdeales =>
      assert vs[0].key == "moles" && vs[1].key == "temperatura" && vs[2].key == "presion";
      assert inputs["presion"].magnitude == 0.0;
      Termodinamica.IdealGasZeroPressure(inputs);
    case TrabajoIsotermico =>
      assert vs[0].key == "moles" && vs[1].key == "temperatura";
      assert vs[2].key == "volumen_inicial" && vs[3].key == "volumen_final";
      assert inputs["volumen_inicial"].magnitude == 0.0;
      Termodinamica.IsothermalZeroInitialVolume(inputs, ln);
  }

  /**
    The two heat formulas agree: feeding the heat that sensible heat computes
    for a mass, a specific heat and a non-zero temperature change into the
    heat-capacity formula, with the same change, gives mass times specific heat.
   */
  lemma HeatCapacityOfSensibleHeat(m: Quantity, c: Quantity, dt: Quantity)
    requires m.unit.dim == Mass && c.unit.dim == SpecificHeat && dt.unit.dim == Temperature
    requires dt.magnitude != 0.0
    ensures var q := Calorimetria.SolveCalorEspecifico(map["masa" := m, "calor_especifico" := c, "delta_temperatura" := dt]);
            && q.Ok?
            && var cap := Termodinamica.SolveCapacidadCalorifica(map["calor" := q.value, "delta_temperatura" := dt]);
            && cap.Ok?
            && cap.value.magnitude == Si(m) * Si(c)
  {
    var heatIn := map["masa" := m, "calor_especifico" := c, "delta_temperatura" := dt];
    Calorimetria.CalorEspecificoDimensions(heatIn);
    Calorimetria.SensibleHeat(heatIn);
    var q := Calorimetria.SolveCalorEspecifico(heatIn).value;
    var capIn := map["calor" := q, "delta_temperatura" := dt];
    Termodinamica.CapacidadCalorificaDimensions(capIn);
    Termodinamica.HeatCapacity(capIn);
    var cap := Termodinamica.SolveCapacidadCalorifica(capIn).value;
    MeasureSign(dt);
    assert cap.magnitude * Si(dt) == (Si(m) * Si(c)) * Si(dt);
  }
}
