/**
 * `converter_dimension`: a fixed table from unit instruction to an affine
 * rule `(scale, offset)`, applied as `value / scale - offset`; instructions
 * missing from the table leave the value as it is.
 */
module Units {

  /** An affine conversion, applied as `value / scale - offset`. */
  datatype Rule = Rule(scale: real, offset: real)

  /** The default pair of `convert_dimension`. */
  const Identity := Rule(1.0, 0.0)

  /**
   * `KELVIN_OFFSET`, `TECHNICAL_ATMOSPHERE` and `ATMOSPHERIC_PRESSURE` of the
   * solver library; their values are not part of this model, only that they
   * are positive.
   */
  datatype Constants = Constants(kelvinOffset: real, technicalAtmosphere: real, atmosphericPressure: real) {
    predicate Valid() {
      kelvinOffset > 0.0 && technicalAtmosphere > 0.0 && atmosphericPressure > 0.0
    }
  }

  /** `convert_dimension`. */
  function ConvertDimension(value: real, rule: Rule): (r: real)
    requires rule.scale != 0.0
    ensures (r + rule.offset) * rule.scale == value
  {
    value / rule.scale - rule.offset
  }

  /** The instruction whose scale is written `1 / 3600`. */
  const HourlyFlow := "m3/h-m3/s"

  /**
   * The table as written. Both operands of `1 / 3600` are integers, so the
   * division truncates and the scale of `HourlyFlow` is 0.
   */
  function WrittenRules(k: Constants): map<string, Rule>
    requires k.Valid()
  {
    map[
      "m3/s" := Rule(1.0, 0.0),
      HourlyFlow := Rule((1 / 3600) as real, 0.0),
      "m3/h" := Rule(3600.0, 0.0),
      "C" := Rule(1.0, -k.kelvinOffset),
      "K" := Rule(1.0, 0.0),
      "kgf/cm2(e)" := Rule(1.0 / k.technicalAtmosphere, -k.atmosphericPressure / k.technicalAtmosphere),
      "kgf/cm2" := Rule(1.0 / k.technicalAtmosphere, -k.atmosphericPressure / k.technicalAtmosphere),
      "kgf/cm2(a)" := Rule(1.0 / k.technicalAtmosphere, 0.0),
      "MPa" := Rule(0.000001, 0.0),
      "MPa-kPa" := Rule(1000.0, 0.0),
      "mm^2/s-m^2/s" := Rule(0.000001, 0.0),
      "mm^2/s" := Rule(1000000.0, 0.0)
    ]
  }

  /** The table with the evidently intended real scale `1/3600` for `HourlyFlow`. */
  function Rules(k: Constants): (rules: map<string, Rule>)
    requires k.Valid()
    ensures rules.Keys == WrittenRules(k).Keys
    ensures forall u :: u in rules && u != HourlyFlow ==> rules[u] == WrittenRules(k)[u]
    ensures forall u :: u in rules ==> rules[u].scale > 0.0
  {
    WrittenRules(k)[HourlyFlow := Rule(1.0 / 3600.0, 0.0)]
  }

  /** `converter_dimension::convert` over the corrected table. */
  function Convert(value: real, instruction: string, k: Constants): (r: real)
    requires k.Valid()
    ensures instruction !in Rules(k) ==> r == value
    ensures instruction in Rules(k) ==>
      (r + Rules(k)[instruction].offset) * Rules(k)[instruction].scale == value
  {
    if instruction in Rules(k) then ConvertDimension(value, Rules(k)[instruction]) else value
  }

  // ---------------------------------------------------------------------
  // The table as written
  // ---------------------------------------------------------------------

  /** An IEEE-754 double, as far as a division by zero needs it. */
  datatype Double = Finite(x: real) | PlusInfinity | MinusInfinity | NotANumber

  /**
   * `convert` over the table as written: a zero scale divides by +0.0, which
   * gives an infinity of the value's sign, or NaN for a zero value.
   */
  function ConvertAsWritten(value: real, instruction: string, k: Constants): (r: Double)
    requires k.Valid()
    ensures instruction != HourlyFlow ==> r == Finite(Convert(value, instruction, k))
    ensures instruction == HourlyFlow ==> !r.Finite?
  {
    if instruction !in WrittenRules(k) then Finite(value)
    else
      var rule := WrittenRules(k)[instruction];
      if rule.scale != 0.0 then Finite(ConvertDimension(value, rule))
      else if value > 0.0 then PlusInfinity
      else if value < 0.0 then MinusInfinity
      else NotANumber
  }

  // ---------------------------------------------------------------------
  // Proofs
  // ---------------------------------------------------------------------

  /** The default pair leaves a value unchanged. */
  lemma IdentityRule(value: real)
    ensures ConvertDimension(value, Identity) == value
  {
  }

  /** Instructions outside the table, the empty one included, pass values through. */
  lemma UnknownInstruction(value: real, k: Constants)
    requires k.Valid()
    ensures Convert(value, "", k) == value
    ensures Convert(value, "kg/m3", k) == value
    ensures Convert(value, "not-a-real-unit", k) == value
  {
  }

  /** `m3/s` and `K` are identity rules. */
  lemma IdentityInstructions(value: real, k: Constants)
    requires k.Valid()
    ensures Convert(value, "m3/s", k) == value
    ensures Convert(value, "K", k) == value
  {
    assert "m3/s" in Rules(k) && Rules(k)["m3/s"] == Identity;
    assert "K" in Rules(k) && Rules(k)["K"] == Identity;
  }

  /** `kgf/cm2` is an alias of `kgf/cm2(e)`. */
  lemma GaugeAlias(k: Constants)
    requires k.Valid()
    ensures Rules(k)["kgf/cm2"] == Rules(k)["kgf/cm2(e)"]
  {
  }

  /** `C` adds the Kelvin offset. */
  lemma Celsius(value: real, k: Constants)
    requires k.Valid()
    ensures Convert(value, "C", k) == value + k.kelvinOffset
  {
    assert Rules(k)["C"] == Rule(1.0, -k.kelvinOffset);
  }

  /**
   * A gauge reading converts to the absolute reading plus the atmospheric
   * pressure divided by the technical atmosphere.
   */
  lemma GaugeOverAbsolute(value: real, k: Constants)
    requires k.Valid()
    ensures Convert(value, "kgf/cm2(e)", k) == Convert(value, "kgf/cm2(a)", k) + k.atmosphericPressure / k.technicalAtmosphere
  {
    var ta := k.technicalAtmosphere;
    assert Rules(k)["kgf/cm2(e)"] == Rule(1.0 / ta, -k.atmosphericPressure / ta);
    assert Rules(k)["kgf/cm2(a)"] == Rule(1.0 / ta, 0.0);
    assert value / (1.0 / ta) == value * ta;
  }

  /** As written, `HourlyFlow` has scale 0 and never yields a finite value. */
  lemma HourlyFlowAsWritten(value: real, k: Constants)
    requires k.Valid()
    ensures WrittenRules(k)[HourlyFlow].scale == 0.0
    ensures !ConvertAsWritten(value, HourlyFlow, k).Finite?
  {
  }

  /**
   * With the intended scale, `HourlyFlow` multiplies by 3600 and `m3/h`
   * undoes it.
   */
  lemma HourlyFlowCorrected(value: real, k: Constants)
    requires k.Valid()
    ensures Convert(value, HourlyFlow, k) == 3600.0 * value
    ensures Convert(Convert(value, HourlyFlow, k), "m3/h", k) == value
  {
    assert Rules(k)[HourlyFlow] == Rule(1.0 / 3600.0, 0.0);
    assert Rules(k)["m3/h"] == Rule(3600.0, 0.0);
  }

  /** `mm^2/s-m^2/s` and `mm^2/s` undo each other. */
  lemma ViscosityRoundTrip(value: real, k: Constants)
    requires k.Valid()
    ensures Convert(Convert(value, "mm^2/s-m^2/s", k), "mm^2/s", k) == value
  {
    assert Rules(k)["mm^2/s-m^2/s"] == Rule(0.000001, 0.0);
    assert Rules(k)["mm^2/s"] == Rule(1000000.0, 0.0);
  }
}
