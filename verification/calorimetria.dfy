/**
  The calorimetry formulas: sensible heat, linear thermal expansion and
  thermal equilibrium between two bodies. Each declares its inputs and
  target, reads its inputs by key in declaration order, evaluates one
  expression on SI values and converts the result to the target unit.
 */
module Calorimetria {
  import opened Units
  import opened Quantities
  import opened BaseFormula

  // ---------------------------------------------------------------------
  // Sensible heat: Q = m c dT
  // Name, declared inputs and target as in core/formulas/calorimetria.py:6-16.

  const CalorEspecificoName := "Calorimetría (Calor Sensible)"
  const CalorEspecificoVariables := [
    VariableSpec("masa", "m", Gram),
    VariableSpec("calor_especifico", "c", JoulePerGramKelvin),
    VariableSpec("delta_temperatura", "\\Delta T", DeltaCelsius)
  ]
  const CalorEspecificoTarget := VariableSpec("calor", "Q", Joule)

  /** Reads mass, specific heat and temperature change; a result is always in joule. */
  function SolveCalorEspecifico(inputs: Inputs): (r: Result<Quantity>)
    ensures r.Ok? ==> "masa" in inputs && "calor_especifico" in inputs && "delta_temperatura" in inputs
    ensures r.Ok? ==> r.value.unit == Joule
  {
    var m :- Get(inputs, "masa");
    var c :- Get(inputs, "calor_especifico");
    var dt :- Get(inputs, "delta_temperatura");
    To(Mul(Mul(m, c), dt), CalorEspecificoTarget.unit)
  }

  /** The declared keys, in declaration order; none is declared twice. */
  lemma CalorEspecificoKeys()
    ensures Keys(CalorEspecificoVariables) == ["masa", "calor_especifico", "delta_temperatura"]
    ensures Distinct(Keys(CalorEspecificoVariables))
  {
  }

  /** Depends only on the declared keys' lookups: inputs that agree on them, in presence and SI value, give the same result. */
  lemma CalorEspecificoReadsDeclared(a: Inputs, b: Inputs)
    requires forall k :: k in Keys(CalorEspecificoVariables) ==> Get(a, k) == Get(b, k)
    ensures SolveCalorEspecifico(a) == SolveCalorEspecifico(b)
  {
    CalorEspecificoKeys();
    assert Get(a, "masa") == Get(b, "masa");
    assert Get(a, "calor_especifico") == Get(b, "calor_especifico");
    assert Get(a, "delta_temperatura") == Get(b, "delta_temperatura");
  }

  /** Reads in declaration order: the first absent declared key is the one reported missing. */
  lemma CalorEspecificoMissingKey(inputs: Inputs)
    ensures match FirstMissing(Keys(CalorEspecificoVariables), inputs)
            case Some(k) => SolveCalorEspecifico(inputs) == Err(MissingKey(k))
            case None => !(SolveCalorEspecifico(inputs).Err? && SolveCalorEspecifico(inputs).error.MissingKey?)
  {
    CalorEspecificoKeys();
  }

  /** The heat is mass times specific heat times temperature change (in SI units). */
  lemma SensibleHeat(inputs: Inputs)
    requires SolveCalorEspecifico(inputs).Ok?
    ensures Si(SolveCalorEspecifico(inputs).value)
            == Si(inputs["masa"]) * Si(inputs["calor_especifico"]) * Si(inputs["delta_temperatura"])
  {
  }

  /** A mass times a specific heat times a temperature change is an energy, so the conversion to joule succeeds. */
  lemma CalorEspecificoDimensions(inputs: Inputs)
    requires "masa" in inputs && inputs["masa"].unit.dim == Mass
    requires "calor_especifico" in inputs && inputs["calor_especifico"].unit.dim == SpecificHeat
    requires "delta_temperatura" in inputs && inputs["delta_temperatura"].unit.dim == Temperature
    ensures SolveCalorEspecifico(inputs).Ok?
  {
  }
  /**
    With every input present and exactly one of them, the `w`-th in
    declaration order, in a unit of another dimension than declared, the
    evaluation fails with a
    dimensionality error rather than giving a dimensionally wrong result
    (provided no division by zero comes first).
   */
  lemma CalorEspecificoWrongDimension(inputs: Inputs, w: nat)
    requires w < 3
    requires "masa" in inputs && (inputs["masa"].unit.dim == Mass <==> w != 0)
    requires "calor_especifico" in inputs && (inputs["calor_especifico"].unit.dim == SpecificHeat <==> w != 1)
    requires "delta_temperatura" in inputs && (inputs["delta_temperatura"].unit.dim == Temperature <==> w != 2)
    ensures SolveCalorEspecifico(inputs).Err? && SolveCalorEspecifico(inputs).error.DimMismatch?
  {
    var m, c, dt := ToMeasure(inputs["masa"]), ToMeasure(inputs["calor_especifico"]), ToMeasure(inputs["delta_temperatura"]);
    var q := Mul(Mul(m, c), dt);
    assert q.dim != Energy by {
      SensibleHeatDimension(m.dim, c.dim, dt.dim);
    }
    assert SolveCalorEspecifico(inputs) == To(q, Joule) by {
      assert Get(inputs, "masa") == Ok(m);
      assert Get(inputs, "calor_especifico") == Ok(c);
      assert Get(inputs, "delta_temperatura") == Ok(dt);
    }
  }

  /** When Q = m c dT is an energy, any two of its inputs in their declared dimensions force the third. */
  lemma SensibleHeatDimension(m: Dim, c: Dim, dt: Dim)
    ensures var r := DimMul(DimMul(m, c), dt);
            && (r == Energy && c == SpecificHeat && dt == Temperature ==> m == Mass)
            && (r == Energy && m == Mass && dt == Temperature ==> c == SpecificHeat)
            && (r == Energy && m == Mass && c == SpecificHeat ==> dt == Temperature)
  {
    var r := DimMul(DimMul(m, c), dt);
    assert r.mass == m.mass + c.mass + dt.mass;
    assert r.length == m.length + c.length + dt.length;
    assert r.time == m.time + c.time + dt.time;
    assert r.temperature == m.temperature + c.temperature + dt.temperature;
    assert r.substance == m.substance + c.substance + dt.substance;
  }

  /** With gram, J/(g K) and delta degrees Celsius the scale factors cancel: Q is the plain product. */
  lemma SensibleHeatDefaultUnits(m: real, c: real, dt: real)
    ensures SolveCalorEspecifico(map["masa" := Quantity(m, Gram),
                                     "calor_especifico" := Quantity(c, JoulePerGramKelvin),
                                     "delta_temperatura" := Quantity(dt, DeltaCelsius)])
            == Ok(Quantity(m * c * dt, Joule))
  {
    var inputs := map["masa" := Quantity(m, Gram),
                      "calor_especifico" := Quantity(c, JoulePerGramKelvin),
                      "delta_temperatura" := Quantity(dt, DeltaCelsius)];
    assert Get(inputs, "masa") == Ok(Measure(m * 0.001, Mass)) by {
      assert inputs["masa"] == Quantity(m, Gram);
      assert ToMeasure(Quantity(m, Gram)) == Measure(m * 0.001, Mass);
    }
    assert Get(inputs, "calor_especifico") == Ok(Measure(c * 1000.0, SpecificHeat)) by {
      assert ToMeasure(Quantity(c, JoulePerGramKelvin)) == Measure(c * 1000.0, SpecificHeat);
    }
    assert Get(inputs, "delta_temperatura") == Ok(Measure(dt * 1.0, Temperature)) by {
      assert ToMeasure(Quantity(dt, DeltaCelsius)) == Measure(dt * 1.0, Temperature);
    }
    var heat := Mul(Mul(Measure(m * 0.001, Mass), Measure(c * 1000.0, SpecificHeat)), Measure(dt * 1.0, Temperature));
    assert SolveCalorEspecifico(inputs) == To(heat, Joule);
    assert heat.si == m * c * dt by {
      assert (m * 0.001) * (c * 1000.0) == m * c;
    }
  }

  /** 100 g of water (4.186 J/(g K)) warmed by 10 degrees takes 4186 J. */
  lemma SensibleHeatWaterExample()
    ensures SolveCalorEspecifico(map["masa" := Quantity(100.0, Gram),
                                     "calor_especifico" := Quantity(4.186, JoulePerGramKelvin),
                                     "delta_temperatura" := Quantity(10.0, DeltaCelsius)])
            == Ok(Quantity(4186.0, Joule))
  {
    var m, c, dt := 100.0, 4.186, 10.0;
    SensibleHeatDefaultUnits(m, c, dt);
    assert m * c * dt == 4186.0;
  }

  /** A mass of 0.1 kilogram gives the same heat as a mass of 100 gram. */
  lemma SensibleHeatKilogramOrGram(c: Quantity, dt: Quantity)
    ensures SolveCalorEspecifico(map["masa" := Quantity(0.1, Kilogram),
                                     "calor_especifico" := c, "delta_temperatura" := dt])
            == SolveCalorEspecifico(map["masa" := Quantity(100.0, Gram),
                                        "calor_especifico" := c, "delta_temperatura" := dt])
  {
    assert ToMeasure(Quantity(0.1, Kilogram)) == ToMeasure(Quantity(100.0, Gram));
  }

  /**
    Only the dimension of the product is checked, so two wrong inputs whose
    dimensions cancel still give a heat: a "mass" in kelvin and a
    "temperature change" in gram multiply to the same dimension as a mass
    times a temperature, and the result converts to joule.
   */
  lemma CalorEspecificoCompensatingDimensions(m: real, c: real, dt: real)
    ensures Kelvin.dim != CalorEspecificoVariables[0].unit.dim
    ensures Gram.dim != CalorEspecificoVariables[2].unit.dim
    ensures SolveCalorEspecifico(map["masa" := Quantity(m, Kelvin),
                                     "calor_especifico" := Quantity(c, JoulePerGramKelvin),
                                     "delta_temperatura" := Quantity(dt, Gram)])
            == Ok(Quantity(m * c * dt, Joule))
  {
    var inputs := map["masa" := Quantity(m, Kelvin),
                      "calor_especifico" := Quantity(c, JoulePerGramKelvin),
                      "delta_temperatura" := Quantity(dt, Gram)];
    assert Get(inputs, "masa") == Ok(Measure(m * 1.0, Temperature)) by {
      assert ToMeasure(Quantity(m, Kelvin)) == Measure(m * 1.0, Temperature);
    }
    assert Get(inputs, "calor_especifico") == Ok(Measure(c * 1000.0, SpecificHeat)) by {
      assert ToMeasure(Quantity(c, JoulePerGramKelvin)) == Measure(c * 1000.0, SpecificHeat);
    }
    assert Get(inputs, "delta_temperatura") == Ok(Measure(dt * 0.001, Mass)) by {
      assert ToMeasure(Quantity(dt, Gram)) == Measure(dt * 0.001, Mass);
    }
    var heat := Mul(Mul(Measure(m * 1.0, Temperature), Measure(c * 1000.0, SpecificHeat)), Measure(dt * 0.001, Mass));
    assert SolveCalorEspecifico(inputs) == To(heat, Joule);
    assert heat.dim == Energy;
    assert heat.si == m * c * dt by {
      assert (m * 1.0) * (c * 1000.0) * (dt * 0.001) == m * c * dt;
    }
  }

  // ---------------------------------------------------------------------
  // Linear thermal expansion: dL = alpha L0 dT
  // Name, declared inputs and target as in core/formulas/calorimetria.py:28-38.

  const DilatacionLinealName := "Dilatación Lineal"
  const DilatacionLinealVariables := [
    VariableSpec("longitud_inicial", "L_0", Meter),
    VariableSpec("coeficiente_dilatacion", "\\alpha", PerKelvin),
    VariableSpec("delta_temperatura", "\\Delta T", DeltaCelsius)
  ]
  const DilatacionLinealTarget := VariableSpec("delta_longitud", "\\Delta L", Millimeter)

  /** Reads initial length, expansion coefficient and temperature change; a result is always in millimeter. */
  function SolveDilatacionLineal(inputs: Inputs): (r: Result<Quantity>)
    ensures r.Ok? ==> "longitud_inicial" in inputs && "coeficiente_dilatacion" in inputs && "delta_temperatura" in inputs
    ensures r.Ok? ==> r.value.unit == Millimeter
  {
    var l0 :- Get(inputs, "longitud_inicial");
    var alpha :- Get(inputs, "coeficiente_dilatacion");
    var dt :- Get(inputs, "delta_temperatura");
    To(Mul(Mul(l0, alpha), dt), DilatacionLinealTarget.unit)
  }

  /** The declared keys, in declaration order; none is declared twice. */
  lemma DilatacionLinealKeys()
    ensures Keys(DilatacionLinealVariables) == ["longitud_inicial", "coeficiente_dilatacion", "delta_temperatura"]
    ensures Distinct(Keys(DilatacionLinealVariables))
  {
  }

  /** Depends only on the declared keys' lookups: inputs that agree on them, in presence and SI value, give the same result. */
  lemma DilatacionLinealReadsDeclared(a: Inputs, b: Inputs)
    requires forall k :: k in Keys(DilatacionLinealVariables) ==> Get(a, k) == Get(b, k)
    ensures SolveDilatacionLineal(a) == SolveDilatacionLineal(b)
  {
    DilatacionLinealKeys();
    assert Get(a, "longitud_inicial") == Get(b, "longitud_inicial");
    assert Get(a, "coeficiente_dilatacion") == Get(b, "coeficiente_dilatacion");
    assert Get(a, "delta_temperatura") == Get(b, "delta_temperatura");
  }

  /** Reads in declaration order: the first absent declared key is the one reported missing. */
  lemma DilatacionLinealMissingKey(inputs: Inputs)
    ensures match FirstMissing(Keys(DilatacionLinealVariables), inputs)
            case Some(k) => SolveDilatacionLineal(inputs) == Err(MissingKey(k))
            case None => !(SolveDilatacionLineal(inputs).Err? && SolveDilatacionLineal(inputs).error.MissingKey?)
  {
    DilatacionLinealKeys();
  }

  /** The elongation is expansion coefficient times initial length times temperature change (in SI units). */
  lemma LinearExpansion(inputs: Inputs)
    requires SolveDilatacionLineal(inputs).Ok?
    ensures Si(SolveDilatacionLineal(inputs).value)
            == Si(inputs["coeficiente_dilatacion"]) * Si(inputs["longitud_inicial"]) * Si(inputs["delta_temperatura"])
  {
  }

  /** A length times a per-kelvin coefficient times a temperature change is a length, so the conversion to millimeter succeeds. */
  lemma DilatacionLinealDimensions(inputs: Inputs)
    requires "longitud_inicial" in inputs && inputs["longitud_inicial"].unit.dim == Length
    requires "coeficiente_dilatacion" in inputs && inputs["coeficiente_dilatacion"].unit.dim == InverseTemperature
    requires "delta_temperatura" in inputs && inputs["delta_temperatura"].unit.dim == Temperature
    ensures SolveDilatacionLineal(inputs).Ok?
  {
  }
  /**
    With every input present and exactly one of them, the `w`-th in
    declaration order, in a unit of another dimension than declared, the
    evaluation fails with a
    dimensionality error rather than giving a dimensionally wrong result
    (provided no division by zero comes first).
   */
  lemma DilatacionLinealWrongDimension(inputs: Inputs, w: nat)
    requires w < 3
    requires "longitud_inicial" in inputs && (inputs["longitud_inicial"].unit.dim == Length <==> w != 0)
    requires "coeficiente_dilatacion" in inputs && (inputs["coeficiente_dilatacion"].unit.dim == InverseTemperature <==> w != 1)
    requires "delta_temperatura" in inputs && (inputs["delta_temperatura"].unit.dim == Temperature <==> w != 2)
    ensures SolveDilatacionLineal(inputs).Err? && SolveDilatacionLineal(inputs).error.DimMismatch?
  {
    var l0, alpha, dt := ToMeasure(inputs["longitud_inicial"]), ToMeasure(inputs["coeficiente_dilatacion"]), ToMeasure(inputs["delta_temperatura"]);
    var q := Mul(Mul(l0, alpha), dt);
    assert q.dim != Length by {
      LinearExpansionDimension(l0.dim, alpha.dim, dt.dim);
    }
    assert SolveDilatacionLineal(inputs) == To(q, Millimeter) by {
      assert Get(inputs, "longitud_inicial") == Ok(l0);
      assert Get(inputs, "coeficiente_dilatacion") == Ok(alpha);
      assert Get(inputs, "delta_temperatura") == Ok(dt);
    }
  }

  /** When dL = L0 alpha dT is a length, any two of its inputs in their declared dimensions force the third. */
  lemma LinearExpansionDimension(l0: Dim, alpha: Dim, dt: Dim)
    ensures var r := DimMul(DimMul(l0, alpha), dt);
            && (r == Length && alpha == InverseTemperature && dt == Temperature ==> l0 == Length)
            && (r == Length && l0 == Length && dt == Temperature ==> alpha == InverseTemperature)
            && (r == Length && l0 == Length && alpha == InverseTemperature ==> dt == Temperature)
  {
    var r := DimMul(DimMul(l0, alpha), dt);
    assert r.mass == l0.mass + alpha.mass + dt.mass;
    assert r.length == l0.length + alpha.length + dt.length;
    assert r.time == l0.time + alpha.time + dt.time;
    assert r.temperature == l0.temperature + alpha.temperature + dt.temperature;
    assert r.substance == l0.substance + alpha.substance + dt.substance;
  }

  /** With L0 in meter, alpha in 1/kelvin and dT in delta degrees Celsius the result is 1000 alpha L0 dT millimeter. */
  lemma LinearExpansionDefaultUnits(l0: real, alpha: real, dt: real)
    ensures SolveDilatacionLineal(map["longitud_inicial" := Quantity(l0, Meter),
                                      "coeficiente_dilatacion" := Quantity(alpha, PerKelvin),
                                      "delta_temperatura" := Quantity(dt, DeltaCelsius)])
            == Ok(Quantity(1000.0 * alpha * l0 * dt, Millimeter))
  {
    var inputs := map["longitud_inicial" := Quantity(l0, Meter),
                      "coeficiente_dilatacion" := Quantity(alpha, PerKelvin),
                      "delta_temperatura" := Quantity(dt, DeltaCelsius)];
    assert Get(inputs, "longitud_inicial") == Ok(Measure(l0 * 1.0, Length)) by {
      assert ToMeasure(Quantity(l0, Meter)) == Measure(l0 * 1.0, Length);
    }
    assert Get(inputs, "coeficiente_dilatacion") == Ok(Measure(alpha * 1.0, InverseTemperature)) by {
      assert ToMeasure(Quantity(alpha, PerKelvin)) == Measure(alpha * 1.0, InverseTemperature);
    }
    assert Get(inputs, "delta_temperatura") == Ok(Measure(dt * 1.0, Temperature)) by {
      assert ToMeasure(Quantity(dt, DeltaCelsius)) == Measure(dt * 1.0, Temperature);
    }
    var dl := Mul(Mul(Measure(l0 * 1.0, Length), Measure(alpha * 1.0, InverseTemperature)), Measure(dt * 1.0, Temperature));
    assert SolveDilatacionLineal(inputs) == To(dl, Millimeter);
    assert dl.si / 0.001 == 1000.0 * alpha * l0 * dt;
  }

  /**
    Linear in each input: scaling any one declared input by k scales the
    elongation by k.
   */
  lemma LinearExpansionIsLinear(inputs: Inputs, key: string, k: real)
    requires "longitud_inicial" in inputs && inputs["longitud_inicial"].unit.dim == Length
    requires "coeficiente_dilatacion" in inputs && inputs["coeficiente_dilatacion"].unit.dim == InverseTemperature
    requires "delta_temperatura" in inputs && inputs["delta_temperatura"].unit.dim == Temperature
    requires key in {"longitud_inicial", "coeficiente_dilatacion", "delta_temperatura"}
    ensures var scaled := inputs[key := Quantity(k * inputs[key].magnitude, inputs[key].unit)];
            && SolveDilatacionLineal(inputs).Ok?
            && SolveDilatacionLineal(scaled).Ok?
            && SolveDilatacionLineal(scaled).value.magnitude == k * SolveDilatacionLineal(inputs).value.magnitude
  {
    var scaled := inputs[key := Quantity(k * inputs[key].magnitude, inputs[key].unit)];
    DilatacionLinealDimensions(inputs);
    DilatacionLinealDimensions(scaled);
    LinearExpansion(inputs);
    LinearExpansion(scaled);
    var a, b, c := Si(inputs["longitud_inicial"]), Si(inputs["coeficiente_dilatacion"]), Si(inputs["delta_temperatura"]);
    var a', b', c' := Si(scaled["longitud_inicial"]), Si(scaled["coeficiente_dilatacion"]), Si(scaled["delta_temperatura"]);
    assert a' * b' * c' == k * (a * b * c) by {
      if key == "longitud_inicial" {
        assert a' == k * a && b' == b && c' == c;
        assert a' * b' * c' == (k * a) * b * c;
      } else if key == "coeficiente_dilatacion" {
        assert a' == a && b' == k * b && c' == c;
        assert a' * b' * c' == a * (k * b) * c;
      } else {
        assert a' == a && b' == b && c' == k * c;
        assert a' * b' * c' == a * b * (k * c);
      }
    }
    var r, r' := SolveDilatacionLineal(inputs).value, SolveDilatacionLineal(scaled).value;
    assert r'.magnitude * 0.001 == k * (r.magnitude * 0.001);
  }

  // ---------------------------------------------------------------------
  // Thermal equilibrium: m1 c1 dT1 + m2 c2 dT2 = 0, solved for dT2
  // Name, declared inputs and target as in core/formulas/calorimetria.py:50-62.

  const EquilibrioTermicoName := "Equilibrio Térmico"
  const EquilibrioTermicoVariables := [
    VariableSpec("masa_1", "m_1", Gram),
    VariableSpec("calor_especifico_1", "c_1", JoulePerGramKelvin),
    VariableSpec("delta_T1", "\\Delta T_1", DeltaCelsius),
    VariableSpec("masa_2", "m_2", Gram),
    VariableSpec("calor_especifico_2", "c_2", JoulePerGramKelvin)
  ]
  const EquilibrioTermicoTarget := VariableSpec("delta_T2", "\\Delta T_2", DeltaCelsius)

  /** All declared inputs are present, spelled out key by key so that reading them needs no unfolding of `Keys`. */
  predicate EquilibrioTermicoHasAll(inputs: Inputs)
  {
    && "masa_1" in inputs && "calor_especifico_1" in inputs && "delta_T1" in inputs
    && "masa_2" in inputs && "calor_especifico_2" in inputs
  }

  /** The declared keys, in declaration order; none is declared twice. */
  lemma EquilibrioTermicoKeys()
    ensures Keys(EquilibrioTermicoVariables) == ["masa_1", "calor_especifico_1", "delta_T1", "masa_2", "calor_especifico_2"]
    ensures Distinct(Keys(EquilibrioTermicoVariables))
  {
    var ks := Keys(EquilibrioTermicoVariables);
    assert ks == ["masa_1", "calor_especifico_1", "delta_T1", "masa_2", "calor_especifico_2"];
    forall i, j | 0 <= i < j < |ks|
      ensures ks[i] != ks[j]
    {
      if |ks[i]| == |ks[j]| {
        assert ks[i][|ks[i]| - 1] != ks[j][|ks[j]| - 1];
      }
    }
  }

  /** The key-by-key spelling is the shared notion of all declared keys being present. */
  lemma EquilibrioTermicoHasAllShared(inputs: Inputs)
    ensures EquilibrioTermicoHasAll(inputs) <==> HasAll(inputs, Keys(EquilibrioTermicoVariables))
  {
    var ks := Keys(EquilibrioTermicoVariables);
    EquilibrioTermicoKeys();
    if HasAll(inputs, ks) {
      assert ks[0] in ks && ks[1] in ks && ks[2] in ks && ks[3] in ks && ks[4] in ks;
    }
  }

  /**
    Reads the five inputs; a result is always in delta degrees Celsius, and a
    division by zero happens exactly when the second body's mass or specific
    heat is zero, so that its heat capacity m2 c2 is zero.
   */
  function SolveEquilibrioTermico(inputs: Inputs): (r: Result<Quantity>)
    ensures r.Ok? ==> EquilibrioTermicoHasAll(inputs) && r.value.unit == DeltaCelsius
    ensures EquilibrioTermicoHasAll(inputs) ==>
              (r == Err(DivByZero) <==> ToMeasure(inputs["masa_2"]).si == 0.0 || ToMeasure(inputs["calor_especifico_2"]).si == 0.0)
  {
    var m1 :- Get(inputs, "masa_1");
    var c1 :- Get(inputs, "calor_especifico_1");
    var dt1 :- Get(inputs, "delta_T1");
    var m2 :- Get(inputs, "masa_2");
    var c2 :- Get(inputs, "calor_especifico_2");
    var dt2 :- Div(Neg(Mul(Mul(m1, c1), dt1)), Mul(m2, c2));
    To(dt2, EquilibrioTermicoTarget.unit)
  }

  /** With every declared key present, the evaluation is the conversion of the computed quotient, or the division's error. */
  lemma EquilibrioTermicoUnfolds(inputs: Inputs)
    requires EquilibrioTermicoHasAll(inputs)
    ensures var m1, c1, dt1 := ToMeasure(inputs["masa_1"]), ToMeasure(inputs["calor_especifico_1"]), ToMeasure(inputs["delta_T1"]);
            var q := Div(Neg(Mul(Mul(m1, c1), dt1)), Mul(ToMeasure(inputs["masa_2"]), ToMeasure(inputs["calor_especifico_2"])));
            SolveEquilibrioTermico(inputs) == if q.Err? then Err(q.error) else To(q.value, DeltaCelsius)
  {
    assert Get(inputs, "masa_1") == Ok(ToMeasure(inputs["masa_1"]));
    assert Get(inputs, "calor_especifico_1") == Ok(ToMeasure(inputs["calor_especifico_1"]));
    assert Get(inputs, "delta_T1") == Ok(ToMeasure(inputs["delta_T1"]));
    assert Get(inputs, "masa_2") == Ok(ToMeasure(inputs["masa_2"]));
    assert Get(inputs, "calor_especifico_2") == Ok(ToMeasure(inputs["calor_especifico_2"]));
  }

  /** Depends only on the declared keys' lookups: inputs that agree on them, in presence and SI value, give the same result. */
  lemma EquilibrioTermicoReadsDeclared(a: Inputs, b: Inputs)
    requires forall k :: k in Keys(EquilibrioTermicoVariables) ==> Get(a, k) == Get(b, k)
    ensures SolveEquilibrioTermico(a) == SolveEquilibrioTermico(b)
  {
    EquilibrioTermicoKeys();
    assert Get(a, "masa_1") == Get(b, "masa_1");
    assert Get(a, "calor_especifico_1") == Get(b, "calor_especifico_1");
    assert Get(a, "delta_T1") == Get(b, "delta_T1");
    assert Get(a, "masa_2") == Get(b, "masa_2");
    assert Get(a, "calor_especifico_2") == Get(b, "calor_especifico_2");
  }

  /** Reads in declaration order: the first absent declared key is the one reported missing. */
  lemma EquilibrioTermicoMissingKey(inputs: Inputs)
    ensures match FirstMissing(Keys(EquilibrioTermicoVariables), inputs)
            case Some(k) => SolveEquilibrioTermico(inputs) == Err(MissingKey(k))
            case None => !(SolveEquilibrioTermico(inputs).Err? && SolveEquilibrioTermico(inputs).error.MissingKey?)
  {
    EquilibrioTermicoKeys();
    if "masa_1" !in inputs {
      FirstMissingAt(Keys(EquilibrioTermicoVariables), inputs, 0);
    } else if "calor_especifico_1" !in inputs {
      FirstMissingAt(Keys(EquilibrioTermicoVariables), inputs, 1);
    } else if "delta_T1" !in inputs {
      FirstMissingAt(Keys(EquilibrioTermicoVariables), inputs, 2);
    } else if "masa_2" !in inputs {
      FirstMissingAt(Keys(EquilibrioTermicoVariables), inputs, 3);
    } else if "calor_especifico_2" !in inputs {
      FirstMissingAt(Keys(EquilibrioTermicoVariables), inputs, 4);
    }
  }

  /** The returned change balances the heats: m1 c1 dT1 + m2 c2 dT2 = 0 (in SI units). */
  lemma EquilibriumBalance(inputs: Inputs)
    requires SolveEquilibrioTermico(inputs).Ok?
    ensures Si(inputs["masa_1"]) * Si(inputs["calor_especifico_1"]) * Si(inputs["delta_T1"])
            + Si(inputs["masa_2"]) * Si(inputs["calor_especifico_2"]) * Si(SolveEquilibrioTermico(inputs).value) == 0.0
  {
    var m1, c1, dt1 := ToMeasure(inputs["masa_1"]), ToMeasure(inputs["calor_especifico_1"]), ToMeasure(inputs["delta_T1"]);
    var m2, c2 := ToMeasure(inputs["masa_2"]), ToMeasure(inputs["calor_especifico_2"]);
    DivCancels(Neg(Mul(Mul(m1, c1), dt1)), Mul(m2, c2));
  }

  /**
    With all inputs present, the evaluation divides by zero exactly when the
    second body's mass or specific heat is zero.
   */
  lemma EquilibriumZeroDivisor(inputs: Inputs)
    requires EquilibrioTermicoHasAll(inputs)
    ensures SolveEquilibrioTermico(inputs) == Err(DivByZero)
            <==> inputs["masa_2"].magnitude == 0.0 || inputs["calor_especifico_2"].magnitude == 0.0
  {
    MeasureSign(inputs["masa_2"]);
    MeasureSign(inputs["calor_especifico_2"]);
  }

  /**
    Heat of the first body over the heat capacity of the second is a
    temperature change, so with a non-zero second mass and specific heat the
    conversion to delta degrees Celsius succeeds.
   */
  lemma EquilibrioTermicoDimensions(inputs: Inputs)
    requires "masa_1" in inputs && inputs["masa_1"].unit.dim == Mass
    requires "calor_especifico_1" in inputs && inputs["calor_especifico_1"].unit.dim == SpecificHeat
    requires "delta_T1" in inputs && inputs["delta_T1"].unit.dim == Temperature
    requires "masa_2" in inputs && inputs["masa_2"].unit.dim == Mass && inputs["masa_2"].magnitude != 0.0
    requires "calor_especifico_2" in inputs && inputs["calor_especifico_2"].unit.dim == SpecificHeat
    requires inputs["calor_especifico_2"].magnitude != 0.0
    ensures SolveEquilibrioTermico(inputs).Ok?
  {
    var m1, c1, dt1, m2, c2 := ToMeasure(inputs["masa_1"]), ToMeasure(inputs["calor_especifico_1"]), ToMeasure(inputs["delta_T1"]), ToMeasure(inputs["masa_2"]), ToMeasure(inputs["calor_especifico_2"]);
    var q := Div(Neg(Mul(Mul(m1, c1), dt1)), Mul(m2, c2));
    assert q.Ok? && q.value.dim == Temperature by {
      MeasureSign(inputs["masa_2"]);
      MeasureSign(inputs["calor_especifico_2"]);
      MulNonZero(m2, c2);
    }
    EquilibrioTermicoUnfolds(inputs);
  }

  /**
    With every input present and exactly one of them, the `w`-th in
    declaration order, in a unit of another dimension than declared, the
    evaluation fails with a
    dimensionality error rather than giving a dimensionally wrong result
    (provided no division by zero comes first).
   */
  lemma EquilibrioTermicoWrongDimension(inputs: Inputs, w: nat)
    requires w < 5
    requires "masa_1" in inputs && (inputs["masa_1"].unit.dim == Mass <==> w != 0)
    requires "calor_especifico_1" in inputs && (inputs["calor_especifico_1"].unit.dim == SpecificHeat <==> w != 1)
    requires "delta_T1" in inputs && (inputs["delta_T1"].unit.dim == Temperature <==> w != 2)
    requires "masa_2" in inputs && (inputs["masa_2"].unit.dim == Mass <==> w != 3)
    requires "calor_especifico_2" in inputs && (inputs["calor_especifico_2"].unit.dim == SpecificHeat <==> w != 4)
    requires inputs["masa_2"].magnitude != 0.0
    requires inputs["calor_especifico_2"].magnitude != 0.0
    ensures SolveEquilibrioTermico(inputs).Err? && SolveEquilibrioTermico(inputs).error.DimMismatch?
  {
    var m1, c1, dt1, m2, c2 := ToMeasure(inputs["masa_1"]), ToMeasure(inputs["calor_especifico_1"]), ToMeasure(inputs["delta_T1"]), ToMeasure(inputs["masa_2"]), ToMeasure(inputs["calor_especifico_2"]);
    var q := Div(Neg(Mul(Mul(m1, c1), dt1)), Mul(m2, c2));
    assert q.Ok? && q.value.dim != Temperature by {
      MeasureSign(inputs["masa_2"]);
      MeasureSign(inputs["calor_especifico_2"]);
      MulNonZero(m2, c2);
      EquilibriumWrongDimension(w, m1.dim, c1.dim, dt1.dim, m2.dim, c2.dim);
    }
    EquilibrioTermicoUnfolds(inputs);
  }

  /** With exactly the `w`-th of the five dimensions off its declared one, m1 c1 dT1 / (m2 c2) is not a temperature. */
  lemma EquilibriumWrongDimension(w: nat, m1: Dim, c1: Dim, dt1: Dim, m2: Dim, c2: Dim)
    requires w < 5
    requires m1 == Mass <==> w != 0
    requires c1 == SpecificHeat <==> w != 1
    requires dt1 == Temperature <==> w != 2
    requires m2 == Mass <==> w != 3
    requires c2 == SpecificHeat <==> w != 4
    ensures DimDiv(DimMul(DimMul(m1, c1), dt1), DimMul(m2, c2)) != Temperature
  {
    EquilibriumNumeratorDimension(m1, c1, dt1, m2, c2);
    EquilibriumDenominatorDimension(m1, c1, dt1, m2, c2);
  }

  /** m1 c1 dT1 / (m2 c2), component by component. */
  lemma EquilibriumComponents(m1: Dim, c1: Dim, dt1: Dim, m2: Dim, c2: Dim)
    ensures var r := DimDiv(DimMul(DimMul(m1, c1), dt1), DimMul(m2, c2));
            && r.mass == m1.mass + c1.mass + dt1.mass - m2.mass - c2.mass
            && r.length == m1.length + c1.length + dt1.length - m2.length - c2.length
            && r.time == m1.time + c1.time + dt1.time - m2.time - c2.time
            && r.temperature == m1.temperature + c1.temperature + dt1.temperature - m2.temperature - c2.temperature
            && r.substance == m1.substance + c1.substance + dt1.substance - m2.substance - c2.substance
  {
  }

  /** When m1 c1 dT1 / (m2 c2) is a temperature, the other four inputs in their declared dimensions force m1, c1 or dT1 into its own. */
  lemma EquilibriumNumeratorDimension(m1: Dim, c1: Dim, dt1: Dim, m2: Dim, c2: Dim)
    ensures var r := DimDiv(DimMul(DimMul(m1, c1), dt1), DimMul(m2, c2));
            && (r == Temperature && c1 == SpecificHeat && dt1 == Temperature && m2 == Mass && c2 == SpecificHeat ==> m1 == Mass)
            && (r == Temperature && m1 == Mass && dt1 == Temperature && m2 == Mass && c2 == SpecificHeat ==> c1 == SpecificHeat)
            && (r == Temperature && m1 == Mass && c1 == SpecificHeat && m2 == Mass && c2 == SpecificHeat ==> dt1 == Temperature)
  {
    var r := DimDiv(DimMul(DimMul(m1, c1), dt1), DimMul(m2, c2));
    if r == Temperature && c1 == SpecificHeat && dt1 == Temperature && m2 == Mass && c2 == SpecificHeat {
      EquilibriumComponents(m1, c1, dt1, m2, c2);
    }
    if r == Temperature && m1 == Mass && dt1 == Temperature && m2 == Mass && c2 == SpecificHeat {
      EquilibriumComponents(m1, c1, dt1, m2, c2);
    }
    if r == Temperature && m1 == Mass && c1 == SpecificHeat && m2 == Mass && c2 == SpecificHeat {
      EquilibriumComponents(m1, c1, dt1, m2, c2);
    }
  }

  /** When m1 c1 dT1 / (m2 c2) is a temperature, the other four inputs in their declared dimensions force m2 or c2 into its own. */
  lemma EquilibriumDenominatorDimension(m1: Dim, c1: Dim, dt1: Dim, m2: Dim, c2: Dim)
    ensures var r := DimDiv(DimMul(DimMul(m1, c1), dt1), DimMul(m2, c2));
            && (r == Temperature && m1 == Mass && c1 == SpecificHeat && dt1 == Temperature && c2 == SpecificHeat ==> m2 == Mass)
            && (r == Temperature && m1 == Mass && c1 == SpecificHeat && dt1 == Temperature && m2 == Mass ==> c2 == SpecificHeat)
  {
    var r := DimDiv(DimMul(DimMul(m1, c1), dt1), DimMul(m2, c2));
    if r == Temperature && m1 == Mass && c1 == SpecificHeat && dt1 == Temperature && c2 == SpecificHeat {
      EquilibriumComponents(m1, c1, dt1, m2, c2);
    }
    if r == Temperature && m1 == Mass && c1 == SpecificHeat && dt1 == Temperature && m2 == Mass {
      EquilibriumComponents(m1, c1, dt1, m2, c2);
    }
  }

  /**
    With positive masses and specific heats the second body changes
    temperature in the opposite direction to the first, and not at all when
    the first does not.
   */
  lemma EquilibriumSign(inputs: Inputs)
    requires SolveEquilibrioTermico(inputs).Ok?
    requires inputs["masa_1"].magnitude > 0.0 && inputs["calor_especifico_1"].magnitude > 0.0
    requires inputs["masa_2"].magnitude > 0.0 && inputs["calor_especifico_2"].magnitude > 0.0
    ensures var dt2 := SolveEquilibrioTermico(inputs).value.magnitude;
            && (inputs["delta_T1"].magnitude > 0.0 ==> dt2 < 0.0)
            && (inputs["delta_T1"].magnitude < 0.0 ==> dt2 > 0.0)
            && (inputs["delta_T1"].magnitude == 0.0 ==> dt2 == 0.0)
  {
    var r := SolveEquilibrioTermico(inputs).value;
    MeasureSign(inputs["masa_1"]);
    MeasureSign(inputs["calor_especifico_1"]);
    MeasureSign(inputs["masa_2"]);
    MeasureSign(inputs["calor_especifico_2"]);
    MeasureSign(inputs["delta_T1"]);
    MeasureSign(r);
    EquilibriumBalance(inputs);
    var h1 := Si(inputs["masa_1"]) * Si(inputs["calor_especifico_1"]);
    var h2 := Si(inputs["masa_2"]) * Si(inputs["calor_especifico_2"]);
    assert h1 > 0.0 && h2 > 0.0;
    assert h1 * Si(inputs["delta_T1"]) + h2 * Si(r) == 0.0;
    if inputs["delta_T1"].magnitude > 0.0 {
      assert h1 * Si(inputs["delta_T1"]) > 0.0;
      assert h2 * Si(r) < 0.0;
    } else if inputs["delta_T1"].magnitude < 0.0 {
      assert h1 * Si(inputs["delta_T1"]) < 0.0;
      assert h2 * Si(r) > 0.0;
    } else {
      assert h2 * Si(r) == 0.0;
    }
  }
}
