# Physics calculator formula catalog — a Dafny model

The calculator ships a catalog of closed-form physics formulas in
`core/formulas/`. Each formula is a class with constant metadata and one
`solve` operation:

- a display name;
- an ordered list of `(key, symbol, default unit)` input triples;
- a target triple;
- `solve`, which reads the named inputs from a mapping of unit-bearing
  values, evaluates one expression and converts the result to the target's
  unit.

The catalog holds ten formulas:

- calorimetry (`calorimetria.py`): sensible heat, linear thermal expansion
  and thermal equilibrium;
- thermodynamics (`termodinamica.py`): the ideal gas law, the mean kinetic
  energy of a monatomic gas, the first law, isothermal work, Boyle's law,
  heat capacity and Charles's law.

At start-up the formula manager discovers the classes by reflection. The main
window then builds a dictionary of them keyed by display name.

The model is pure, as the source is: datatypes, functions and lemmas, with no
classes and no loops. It has these modules:

- `Units`: dimensions as exponent vectors over mass, length, time,
  temperature and amount of substance. It also holds the unit table, with
  each unit's spelling, its scale to SI base units and its dimension. The
  table covers every unit a declaration uses, plus the linear alternatives
  the input forms offer.
- `Quantities`: unit-bearing values and the unit library's operations the
  formulas use. These are product, quotient, difference, the logarithm of a
  dimensionless ratio, conversion to a unit, and keyed input lookup. The
  module also holds the error values. A failure the Python code raises is a
  `Result` error here:
  - `MissingKey` is a `KeyError` on the input mapping;
  - `DimMismatch` is the unit library's dimensionality error;
  - `DivByZero` is a `ZeroDivisionError` on a zero magnitude;
  - `NotFound` is a failed lookup of a name in the registry.
- `BaseFormula`: the variable triples, and the notions of "all declared keys
  present" and "first missing key in declaration order".
- `Calorimetria` and `Termodinamica`: each formula's metadata and `solve`,
  mirroring the order of operations in the source. Each formula comes with:
  - the identity its equation promises (`P_1 V_1 = P_2 V_2`,
    `m_1 c_1 ΔT_1 + m_2 c_2 ΔT_2 = 0`, …);
  - exactly when it divides by zero;
  - that inputs in the declared dimensions always convert to the target unit;
  - that it reads only its declared keys, and reports the first missing
    one.
- `Catalog`: a `Formula` datatype with one constructor per class, and
  dispatch of name, variables, target and `solve`. It also holds the
  discovery order and the name-keyed registry built from it.

Modelling choices that follow the code:

- **Temperatures.** Kelvin and the delta-degree units (`delta_degree_Celsius`,
  `delta_degree_Fahrenheit`) share one dimension, as they do in the unit
  library. The code never checks whether a temperature is absolute or a
  difference. An absolute temperature is therefore accepted where a
  difference is declared, and the reverse. The model does the same.
- **Constants.** The gas constant is the unit library's `R`, defined as the
  Boltzmann constant times the Avogadro constant: 8.31446261815324 J/(mol·K).
  The Boltzmann constant is the exact SI value 1.380649e-23 J/K.
- **The factor 3/2.** In `K = (3/2) kB T`, Python evaluates `3/2` to exactly
  1.5.
- **Logarithm.** Isothermal work takes numpy's natural logarithm. numpy's
  `log` is total: it returns `nan` or `-inf` rather than raising. So the model
  passes the logarithm in as a total function `ln` and puts no precondition
  on the volume ratio. Lemmas that need logarithm laws assume
  `Termodinamica.IsNaturalLog(ln)`: `ln(1) = 0`, the product rule, and strict
  growth on positive reals.
- **Dimension checks.** No formula checks its inputs' dimensions one by one.
  The only checks are the ones the arithmetic makes: a difference, a
  logarithm and the final conversion to the target unit. A single input in
  the wrong dimension is always caught. Two wrong inputs whose dimensions
  cancel are not: a "mass" in kelvin and a "temperature change" in gram give
  a heat in joule (`Calorimetria.CalorEspecificoCompensatingDimensions`). The
  model does the same.

## Model

| member | source | states |
|---|---|---|
| Quantities.Get | core/formulas/calorimetria.py:21-23 | reading a key succeeds exactly when it is present, giving its SI value; an absent key is a missing-key error naming it |
| Quantities.Div | core/formulas/termodinamica.py:26 | a quotient succeeds exactly when the divisor's magnitude is non-zero, otherwise a division-by-zero error; its dimension is the quotient of the dimensions |
| Quantities.Sub | core/formulas/termodinamica.py:64 | a difference succeeds exactly when both operands have the same dimension, otherwise the dimensionality error naming the minuend's dimension, then the subtrahend's; result plus subtrahend gives the minuend |
| Quantities.MulDivCancels | core/formulas/calorimetria.py:25 | a product (the unit library's `*`) divided by a non-zero factor gives back the other factor, dimension included |
| Quantities.DivCancels | core/formulas/termodinamica.py:110 | a quotient times its divisor gives back the dividend, in magnitude and in dimension |
| Quantities.NegIsSubFromZero | core/formulas/calorimetria.py:73 | unary minus is subtraction from zero in the same dimension |
| Quantities.Log | core/formulas/termodinamica.py:89 | the logarithm applies only to a dimensionless value, otherwise a dimensionality error |
| Quantities.To | core/formulas/calorimetria.py:26 | conversion succeeds exactly when the target unit has the value's dimension; the converted quantity is in the target unit and denotes the same SI value |
| Quantities.ConvertRoundTrip | core/formulas/calorimetria.py:26 | converting to any unit of the same dimension and back gives the original quantity |
| Quantities.ConstantsPositive | core/formulas/termodinamica.py:24 | the Boltzmann and gas constants are positive, and R is 8.31446261815324 J/(mol·K) |
| BaseFormula.FirstMissing | core/formulas/calorimetria.py:21-23 | no key is reported missing exactly when all declared keys are present; a reported key is absent and every key declared before it is present |
| Calorimetria.SolveCalorEspecifico | core/formulas/calorimetria.py:20-26 | a result requires all three inputs and is always in joule |
| Calorimetria.CalorEspecificoReadsDeclared | core/formulas/calorimetria.py:21-23 | the result depends only on the three declared inputs |
| Calorimetria.CalorEspecificoMissingKey | core/formulas/calorimetria.py:21-23 | with inputs absent, the error names the first one in declaration order; with all present there is no missing-key error |
| Calorimetria.SensibleHeat | core/formulas/calorimetria.py:18-25 | the heat in SI is mass times specific heat times temperature change |
| Calorimetria.CalorEspecificoDimensions | core/formulas/calorimetria.py:10-16 | inputs of mass, specific-heat and temperature dimension always convert to joule |
| Calorimetria.CalorEspecificoWrongDimension | core/formulas/calorimetria.py:20-26 | with all three inputs present and exactly one of them in a unit of another dimension than declared, the evaluation is a dimensionality error |
| Calorimetria.SensibleHeatDefaultUnits | core/formulas/calorimetria.py:10-26 | with gram, J/(g·K) and delta-degree inputs, the result is exactly the plain product of the magnitudes, in joule |
| Calorimetria.SensibleHeatWaterExample | core/formulas/calorimetria.py:20-26 | 100 g of water at 4.186 J/(g·K) warmed by 10 degrees takes 4186 J |
| Calorimetria.CalorEspecificoCompensatingDimensions | core/formulas/calorimetria.py:20-26 | a mass given in kelvin and a temperature change given in gram, whose dimensions cancel, still give m·c·ΔT joule: only the product's dimension is checked |
| Calorimetria.SensibleHeatKilogramOrGram | core/formulas/calorimetria.py:25-26 | a mass of 0.1 kg gives the same result as 100 g |
| Calorimetria.SolveDilatacionLineal | core/formulas/calorimetria.py:42-48 | a result requires all three inputs and is always in millimeter |
| Calorimetria.DilatacionLinealReadsDeclared | core/formulas/calorimetria.py:43-45 | the result depends only on the three declared inputs |
| Calorimetria.DilatacionLinealMissingKey | core/formulas/calorimetria.py:43-45 | with inputs absent, the error names the first one in declaration order; with all present there is no missing-key error |
| Calorimetria.LinearExpansion | core/formulas/calorimetria.py:40-47 | the length change in SI is α·L0·ΔT |
| Calorimetria.DilatacionLinealDimensions | core/formulas/calorimetria.py:32-38 | inputs of length, inverse-temperature and temperature dimension always convert to millimeter |
| Calorimetria.DilatacionLinealWrongDimension | core/formulas/calorimetria.py:42-48 | with all three inputs present and exactly one of them in a unit of another dimension than declared, the evaluation is a dimensionality error |
| Calorimetria.LinearExpansionDefaultUnits | core/formulas/calorimetria.py:32-48 | with metre, 1/kelvin and delta-degree inputs, the result is 1000·α·L0·ΔT millimeter |
| Calorimetria.LinearExpansionIsLinear | core/formulas/calorimetria.py:47-48 | scaling any one input by k scales the result by k |
| Calorimetria.SolveEquilibrioTermico | core/formulas/calorimetria.py:66-74 | a result requires all five inputs and is in delta_degree_Celsius; with all present, it is a division-by-zero error exactly when m2 or c2 is zero in SI |
| Calorimetria.EquilibrioTermicoReadsDeclared | core/formulas/calorimetria.py:67-71 | the result depends only on the five declared inputs |
| Calorimetria.EquilibrioTermicoMissingKey | core/formulas/calorimetria.py:67-71 | with inputs absent, the error names the first one in declaration order; with all present there is no missing-key error |
| Calorimetria.EquilibrioTermicoHasAllShared | core/formulas/calorimetria.py:67-71 | the five keys spelled out are exactly the declared keys being present |
| Calorimetria.EquilibriumBalance | core/formulas/calorimetria.py:64-73 | the returned ΔT2 satisfies m1·c1·ΔT1 + m2·c2·ΔT2 = 0 |
| Calorimetria.EquilibriumZeroDivisor | core/formulas/calorimetria.py:73 | with all inputs present, the result is a division-by-zero error exactly when m2 or c2 has magnitude zero |
| Calorimetria.EquilibrioTermicoDimensions | core/formulas/calorimetria.py:54-62 | inputs in the declared dimensions, with non-zero m2 and c2, always give a result |
| Calorimetria.EquilibrioTermicoWrongDimension | core/formulas/calorimetria.py:66-74 | with all five inputs present, m2 and c2 non-zero, and exactly one input in a unit of another dimension than declared, the evaluation is a dimensionality error |
| Calorimetria.EquilibriumSign | core/formulas/calorimetria.py:73 | with positive masses and specific heats, ΔT2 has the sign opposite to ΔT1, and is zero when ΔT1 is |
| Termodinamica.SolveLeyGasesIdeales | core/formulas/termodinamica.py:20-27 | a result requires all three inputs and is always in liter |
| Termodinamica.LeyGasesIdealesHasAllShared | core/formulas/termodinamica.py:21-23 | the keys spelled out are exactly the declared keys being present |
| Termodinamica.LeyGasesIdealesReadsDeclared | core/formulas/termodinamica.py:21-23 | the result depends only on the three declared inputs |
| Termodinamica.LeyGasesIdealesMissingKey | core/formulas/termodinamica.py:21-23 | with inputs absent, the error names the first one in declaration order; with all present there is no missing-key error |
| Termodinamica.IdealGasLaw | core/formulas/termodinamica.py:18-26 | the returned volume satisfies P·V = n·R·T |
| Termodinamica.IdealGasZeroPressure | core/formulas/termodinamica.py:26 | with all inputs present, the result is a division-by-zero error exactly when the pressure is zero |
| Termodinamica.LeyGasesIdealesDimensions | core/formulas/termodinamica.py:10-16 | amount, temperature and non-zero pressure inputs always convert to liter |
| Termodinamica.LeyGasesIdealesWrongDimension | core/formulas/termodinamica.py:20-27 | with all three inputs present, a non-zero pressure, and exactly one input in a unit of another dimension than declared, the evaluation is a dimensionality error |
| Termodinamica.IdealGasMolarVolume | core/formulas/termodinamica.py:20-27 | one mole at 273.15 K and 101325 Pa occupies between 22.41 and 22.42 liter |
| Termodinamica.SolveEnergiaCineticaMedia | core/formulas/termodinamica.py:41-46 | a result requires the temperature and is always in joule |
| Termodinamica.EnergiaCineticaMediaReadsDeclared | core/formulas/termodinamica.py:42 | the result depends only on the temperature input |
| Termodinamica.EnergiaCineticaMediaMissingKey | core/formulas/termodinamica.py:42 | a missing temperature is reported by its key, and is the only missing-key error |
| Termodinamica.EnergiaCineticaMediaDimensions | core/formulas/termodinamica.py:33-46 | the evaluation succeeds exactly when a temperature-dimensioned input is supplied |
| Termodinamica.EnergiaCineticaMediaWrongDimension | core/formulas/termodinamica.py:41-46 | a temperature input of another dimension makes the evaluation a dimensionality error |
| Termodinamica.KineticEnergy | core/formulas/termodinamica.py:39-45 | the result is 1.5·kB·T joule |
| Termodinamica.KineticEnergyDimension | core/formulas/termodinamica.py:45-46 | (3/2)·kB·T converts to joule exactly when T has the dimension of temperature |
| Termodinamica.KineticEnergyProportional | core/formulas/termodinamica.py:45-46 | scaling the temperature by k scales the energy by k |
| Termodinamica.KineticEnergyNonNegative | core/formulas/termodinamica.py:45-46 | a non-negative temperature gives a non-negative energy |
| Termodinamica.SolvePrimeraLeyTermodinamica | core/formulas/termodinamica.py:61-65 | a result requires both inputs and is always in joule |
| Termodinamica.PrimeraLeyTermodinamicaReadsDeclared | core/formulas/termodinamica.py:62-63 | the result depends only on the two declared inputs |
| Termodinamica.PrimeraLeyTermodinamicaMissingKey | core/formulas/termodinamica.py:62-63 | with inputs absent, the error names the first one in declaration order; with both present there is no missing-key error |
| Termodinamica.FirstLaw | core/formulas/termodinamica.py:59-64 | the returned ΔU satisfies ΔU + W = Q |
| Termodinamica.FirstLawBalanced | core/formulas/termodinamica.py:64-65 | heat equal to work gives exactly 0 joule |
| Termodinamica.FirstLawDimensionError | core/formulas/termodinamica.py:64-65 | the evaluation succeeds exactly when both inputs are energies; otherwise the difference reports the heat's dimension then the work's, or, when they agree on a non-energy dimension, the conversion to joule reports it |
| Termodinamica.PrimeraLeyTermodinamicaWrongDimension | core/formulas/termodinamica.py:61-65 | with both inputs present and exactly one of them not an energy, the evaluation is a dimensionality error |
| Termodinamica.SolveTrabajoIsotermico | core/formulas/termodinamica.py:82-90 | a result requires all four inputs and is always in joule |
| Termodinamica.TrabajoIsotermicoHasAllShared | core/formulas/termodinamica.py:83-86 | the keys spelled out are exactly the declared keys being present |
| Termodinamica.TrabajoIsotermicoReadsDeclared | core/formulas/termodinamica.py:83-86 | the result depends only on the four declared inputs |
| Termodinamica.TrabajoIsotermicoMissingKey | core/formulas/termodinamica.py:83-86 | with inputs absent, the error names the first one in declaration order; with all present there is no missing-key error |
| Termodinamica.IsothermalWork | core/formulas/termodinamica.py:80-89 | a result implies a non-zero initial volume, and the work is n·R·T·ln(Vf/Vi) |
| Termodinamica.IsothermalZeroInitialVolume | core/formulas/termodinamica.py:89 | with all inputs present, the result is a division-by-zero error exactly when the initial volume is zero |
| Termodinamica.TrabajoIsotermicoDimensions | core/formulas/termodinamica.py:71-78 | inputs in the declared dimensions, with a non-zero initial volume, always convert to joule |
| Termodinamica.TrabajoIsotermicoWrongDimension | core/formulas/termodinamica.py:82-90 | with all four inputs present, a non-zero initial volume, and exactly one input in a unit of another dimension than declared, the evaluation is a dimensionality error; its target dimension is dimensionless when a volume is off (the logarithm rejects the ratio) and energy otherwise (the conversion to joule rejects the product) |
| Termodinamica.IsothermalNoVolumeChange | core/formulas/termodinamica.py:89-90 | equal initial and final volumes give exactly 0 joule when ln(1) = 0 |
| Termodinamica.IsothermalWorkSign | core/formulas/termodinamica.py:89 | for positive n, T and volumes, expansion gives positive work and compression negative work |
| Termodinamica.IsothermalReversible | core/formulas/termodinamica.py:89 | swapping the two volumes of an evaluable input, the final one non-zero, is also evaluable |
| Termodinamica.IsothermalReversal | core/formulas/termodinamica.py:89 | for positive volumes, the work of the reverse process is the negation of the work |
| Termodinamica.SolveLeyDeBoyle | core/formulas/termodinamica.py:106-111 | a result requires all three inputs and is always in liter |
| Termodinamica.LeyDeBoyleHasAllShared | core/formulas/termodinamica.py:107-109 | the keys spelled out are exactly the declared keys being present |
| Termodinamica.LeyDeBoyleReadsDeclared | core/formulas/termodinamica.py:107-109 | the result depends only on the three declared inputs |
| Termodinamica.LeyDeBoyleMissingKey | core/formulas/termodinamica.py:107-109 | with inputs absent, the error names the first one in declaration order; with all present there is no missing-key error |
| Termodinamica.BoyleLaw | core/formulas/termodinamica.py:104-110 | the returned volume satisfies P1·V1 = P2·V2 |
| Termodinamica.BoyleZeroPressure | core/formulas/termodinamica.py:110 | with all inputs present, the result is a division-by-zero error exactly when the final pressure is zero |
| Termodinamica.LeyDeBoyleDimensions | core/formulas/termodinamica.py:96-102 | inputs in the declared dimensions, with a non-zero final pressure, always convert to liter |
| Termodinamica.LeyDeBoyleWrongDimension | core/formulas/termodinamica.py:106-111 | with all three inputs present, a non-zero final pressure, and exactly one input in a unit of another dimension than declared, the evaluation is a dimensionality error |
| Termodinamica.BoyleHalvesVolume | core/formulas/termodinamica.py:106-111 | doubling the pressure of 2 liter from 1 to 2 atmosphere gives exactly 1 liter |
| Termodinamica.SolveCapacidadCalorifica | core/formulas/termodinamica.py:126-130 | a result requires both inputs and is always in joule per delta_degree_Celsius |
| Termodinamica.CapacidadCalorificaReadsDeclared | core/formulas/termodinamica.py:127-128 | the result depends only on the two declared inputs |
| Termodinamica.CapacidadCalorificaMissingKey | core/formulas/termodinamica.py:127-128 | with inputs absent, the error names the first one in declaration order; with both present there is no missing-key error |
| Termodinamica.HeatCapacity | core/formulas/termodinamica.py:124-129 | the returned capacity satisfies C·ΔT = Q |
| Termodinamica.HeatCapacityZeroChange | core/formulas/termodinamica.py:129 | with both inputs present, the result is a division-by-zero error exactly when ΔT is zero |
| Termodinamica.CapacidadCalorificaDimensions | core/formulas/termodinamica.py:117-122 | an energy and a non-zero temperature change always convert to joule per delta_degree_Celsius |
| Termodinamica.CapacidadCalorificaWrongDimension | core/formulas/termodinamica.py:126-130 | with both inputs present, a non-zero temperature change, and exactly one of them in a unit of another dimension than declared, the evaluation is a dimensionality error |
| Termodinamica.SolveLeyDeCharles | core/formulas/termodinamica.py:146-151 | a result requires all three inputs and is always in liter |
| Termodinamica.LeyDeCharlesHasAllShared | core/formulas/termodinamica.py:147-149 | the keys spelled out are exactly the declared keys being present |
| Termodinamica.LeyDeCharlesReadsDeclared | core/formulas/termodinamica.py:147-149 | the result depends only on the three declared inputs |
| Termodinamica.LeyDeCharlesMissingKey | core/formulas/termodinamica.py:147-149 | with inputs absent, the error names the first one in declaration order; with all present there is no missing-key error |
| Termodinamica.CharlesLaw | core/formulas/termodinamica.py:144-150 | a result implies T1 ≠ 0; the returned volume satisfies V1·T2 = V2·T1, and V1/T1 = V2/T2 when T2 ≠ 0 |
| Termodinamica.CharlesZeroTemperature | core/formulas/termodinamica.py:150 | with all inputs present, the result is a division-by-zero error exactly when T1 is zero |
| Termodinamica.LeyDeCharlesDimensions | core/formulas/termodinamica.py:136-142 | inputs in the declared dimensions, with a non-zero T1, always convert to liter |
| Termodinamica.LeyDeCharlesWrongDimension | core/formulas/termodinamica.py:146-151 | with all three inputs present, a non-zero T1, and exactly one input in a unit of another dimension than declared, the evaluation is a dimensionality error |
| Termodinamica.CharlesDoublesVolume | core/formulas/termodinamica.py:146-151 | 1 liter heated from 300 K to 600 K becomes exactly 2 liter |
| Catalog.Variables | core/formulas/base_formula.py:18-22 | every formula's declared input keys are pairwise distinct |
| Catalog.Target | core/formulas/base_formula.py:24-28 | every formula's target key is not one of its input keys |
| Catalog.NameInjective | core/formulas/base_formula.py:6-10 | two formulas have the same display name exactly when they are the same formula |
| Catalog.Solve | core/formulas/base_formula.py:36-39 | any formula's result is in its declared target unit |
| Catalog.Position | core/formula_manager.py:7-20 | every formula class is among the discovered formulas |
| Catalog.DiscoveredOnce | core/formula_manager.py:11-18 | the loader lists each formula class exactly once |
| Catalog.Registry | gui/main_window.py:16 | every registry entry is filed under its own formula's name |
| Catalog.RegistryKeys | gui/main_window.py:16 | the registry's keys are exactly the names of the listed formulas |
| Catalog.RegistryLastWins | gui/main_window.py:16 | a formula with no later namesake in the list is the one the registry holds under its name |
| Catalog.RegistryKeepsAll | gui/main_window.py:16 | with pairwise distinct names, the registry keeps every listed formula |
| Catalog.DiscoveredNamesDistinct | core/formulas/calorimetria.py:7-51 | the ten display names (three here, seven in the thermodynamics module) are pairwise distinct |
| Catalog.RegistryComplete | gui/main_window.py:16 | no formula is lost from the registry built from the discovered list |
| Catalog.Lookup | gui/main_window.py:44 | a lookup by name returns a formula with that name, or a not-found error for it |
| Catalog.LookupByName | gui/main_window.py:41-44 | a lookup succeeds exactly for the ten display names, and returns the formula that has the name |
| Catalog.MissingKeyReported | core/formulas/base_formula.py:36-39 | for every formula, absent inputs give a missing-key error naming the first in declaration order, and otherwise no missing-key error |
| Catalog.SolveDependsOnlyOnMeasures | core/formulas/base_formula.py:36-39 | for every formula, inputs that agree on the declared keys' presence and SI values give the same result, whatever their units and extra keys |
| Catalog.ConformingInputsSucceed | core/formulas/base_formula.py:18-39 | for every formula, inputs in the declared dimensions with non-zero divisors always give a result |
| Catalog.WrongDimensionFails | core/formulas/base_formula.py:18-39 | for every formula, all declared inputs present with exactly one in a unit of another dimension than declared, and non-zero divisors, give a dimensionality error, never a result |
| Catalog.ConformingInputsZeroDivisor | core/formulas/base_formula.py:18-39 | for every formula, inputs in the declared dimensions with a zero divisor give exactly the division-by-zero error |
| Catalog.HeatCapacityOfSensibleHeat | core/formulas/termodinamica.py:126-130 | applying heat capacity to the sensible heat of m, c, ΔT, with ΔT non-zero, gives back m·c |

## Left out

- The Qt interface is not part of this model: `gui/widgets/formula_view.py`,
  the window layout, the LaTeX rendering and `main.py`. This includes the
  form's text-to-number parsing and its empty-field messages.
- The form's unit-consistency warnings (`gui/widgets/formula_view.py:156-215`)
  are not modelled. They are substring heuristics over widget state, not part
  of any formula.
- The display order of the formula list (names sorted at
  `gui/main_window.py:41`) and the widget stack indexed by it are UI. The
  registry itself is modelled.
- Reflective discovery (`pkgutil.iter_modules`, `__import__`,
  `inspect.getmembers`) becomes the constant `Catalog.Discovered`. It has the
  same contents and the same order: modules alphabetically, classes by name.
- The unit library and `core/unit_handler.py` are not part of this model.
  The model has its own dimension algebra and a fixed table of linear units.
  Unit-string parsing is not modelled: a unit is a record carrying its
  spelling.
- Offset temperature scales are not modelled: `degree_Celsius` and
  `degree_Fahrenheit` as absolute temperatures, which the form offers for
  kelvin inputs, and the library's offset-unit errors on them. Inputs are in
  kelvin or delta-degree units.
- Floating-point rounding, `nan` and `inf` are not modelled. Magnitudes are
  exact reals, so every exact identity above holds for reals but only
  approximately for IEEE doubles.
- Termodinamica.SolveTrabajoIsotermico: numpy's `log` is a parameter `ln`, not
  a particular function. Its value for a non-positive ratio (`nan` or `-inf`)
  is whatever `ln` returns. Properties that rely on logarithm laws require
  `IsNaturalLog(ln)` or `ln(1) = 0`.
- Catalog.WrongDimensionFails: covers exactly one input in a wrong dimension.
  With two or more wrong inputs the source fails only when their dimensions
  do not cancel, because it checks the dimension of the result, not of each
  input (see `Calorimetria.CalorEspecificoCompensatingDimensions`).
- The `description` and `formula_latex` strings are display text. Each
  formula's equation is stated instead as a lemma about its result.
