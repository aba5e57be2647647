/**
 * The default field library: seven groups, thirty-four fields. Lambdas and
 * numbers are kept as their source text; only attribute keys and unit
 * strings matter to the checks and the conversion.
 */
module DefaultLibrary {
  import opened Fields
  import opened PyText
  import opened Units
  import opened Validation
  import opened Conversion

  // Numerical
  const TmaxField: Field := Field("Tmax", map[
    "value" := Num("100"),
    "units" := Str("y"),
    "com" := Str("Total simulated time")])
  const dtField: Field := Field("dt", map[
    "value" := Num("0.01"),
    "units" := Str("y"),
    "com" := Str("time between two steps")])
  const ntField: Field := Field("nt", map[
    "func" := Func("lambda Tmax=0, dt=1: int(Tmax / dt)"),
    "units" := NoneV,
    "com" := Str("Total simulated time")])
  const nxField: Field := Field("nx", map[
    "value" := Num("100"),
    "units" := Str("y"),
    "com" := Str("Total simulated time")])
  const timeField: Field := Field("time", map[
    "value" := Num("0"),
    "ode" := Func("lambda dt=0: 1."),
    "com" := Str("Time vector"),
    "units" := Str("y")])

  const Numerical: Group := Group("Numerical", [
    TmaxField, dtField, ntField, nxField, timeField])

  // CORE
  const NField: Field := Field("N", map[
    "value" := Num("1."),
    "com" := Str("Exogenous population as an exponential"),
    "units" := Str("humans")])
  const betaField: Field := Field("beta", map[
    "value" := Num("0.025"),
    "com" := Str("Rate of population growth"),
    "units" := Str("y^{-1}")])
  const aField: Field := Field("a", map[
    "value" := Num("1"),
    "units" := Str("Units.Humans^{-1}.years^{-1}"),
    "com" := Str("Exogenous technical progress as an exponential")])
  const alphaField: Field := Field("alpha", map[
    "value" := Num("0.02"),
    "com" := Str("Rate of productivity increase"),
    "units" := Str("y^{-1}")])
  const WField: Field := Field("W", map[
    "value" := Num("0.85"),
    "com" := Str("Wage value"),
    "units" := Str("Dollars")])
  const deltaField: Field := Field("delta", map[
    "value" := Num("0.005"),
    "com" := Str("Rate of capital depletion"),
    "units" := Str("y^{-1}")])
  const nuField: Field := Field("nu", map[
    "value" := Num("3"),
    "com" := Str("Kapital to output ratio"),
    "units" := NoneV])
  const KField: Field := Field("K", map[
    "value" := Num("2.7"),
    "units" := Str("Units"),
    "com" := Str("Capital evolution from investment and depreciation")])
  const piField: Field := Field("pi", map[
    "value" := NoneV,
    "com" := Str("relative profit"),
    "units" := Str(""),
    "symbol" := Str("$\\pi$")])
  const gField: Field := Field("g", map[
    "value" := NoneV,
    "com" := Str("Relative growth"),
    "units" := Str("y^{-1}")])
  const YField: Field := Field("Y", map[
    "value" := NoneV,
    "com" := Str("GDP in output quantity"),
    "units" := Str("Units.years^{-1}")])
  const LField: Field := Field("L", map[
    "value" := NoneV,
    "com" := Str("Workers"),
    "units" := Str("Humans")])
  const IField: Field := Field("I", map[
    "value" := NoneV,
    "com" := Str("Investment"),
    "units" := Str("Dollars")])
  const PiField: Field := Field("Pi", map[
    "value" := NoneV,
    "com" := Str("Absolute profit"),
    "units" := Str("Dollars")])

  const Core: Group := Group("CORE", [
    NField, betaField, aField, alphaField, WField, deltaField, nuField, KField, piField, gField,
    YField, LField, IField, PiField])

  // Salary Negociation
  const phillipsField: Field := Field("phillips", map[
    "value" := NoneV,
    "com" := Str("Wage inflation rate"),
    "units" := Str("y^{-1}"),
    "symbol" := Str("$\\phi$")])
  const phinullField: Field := Field("phinull", map[
    "value" := Num("0.04"),
    "com" := Str("Unemployment rate with no salary increase"),
    "units" := NoneV])
  const phi0Field: Field := Field("phi0", map[
    "func" := Func("lambda phinull=0: phinull / (1 - phinull**2)"),
    "com" := Str(""),
    "units" := NoneV])
  const phi1Field: Field := Field("phi1", map[
    "func" := Func("lambda phinull=0: phinull**3 / (1 - phinull**2)"),
    "com" := Str(""),
    "units" := NoneV])

  const SalaryNegociation: Group := Group("Salary Negociation", [
    phillipsField, phinullField, phi0Field, phi1Field])

  // Investment
  const kappaField: Field := Field("kappa", map[
    "value" := NoneV,
    "com" := Str("Part of GDP in investment"),
    "units" := Str(""),
    "symbol" := Str("$\\kappa$")])
  const k0Field: Field := Field("k0", map[
    "value" := Num("-0.0065"),
    "com" := Str("Percent of GDP invested when profit is zero"),
    "units" := NoneV])
  const k1Field: Field := Field("k1", map[
    "value" := Num("np.exp(-5)"),
    "com" := Str("Investment slope"),
    "units" := NoneV])
  const k2Field: Field := Field("k2", map[
    "value" := Num("20"),
    "com" := Str("Investment power in kappa"),
    "units" := NoneV])

  const Investment: Group := Group("Investment", [
    kappaField, k0Field, k1Field, k2Field])

  // Debt
  const rField: Field := Field("r", map[
    "value" := Num(".03"),
    "com" := Str("Interest at the bank"),
    "units" := Str("y^{-1}")])
  const DField: Field := Field("D", map[
    "value" := Num("0.1"),
    "com" := Str("Debt as Investment-Profit difference"),
    "units" := Str("Dollars")])
  const dField: Field := Field("d", map[
    "value" := Num("0.1"),
    "com" := Str("relative debt"),
    "units" := Str("")])

  const Debt: Group := Group("Debt", [
    rField, DField, dField])

  // Prices
  const muField: Field := Field("mu", map[
    "value" := Num("2"),
    "com" := Str("Markup on prices"),
    "units" := NoneV])
  const etaField: Field := Field("eta", map[
    "value" := Num("1"),
    "com" := Str("timerate of price adjustment"),
    "units" := Str("y^{-1}")])
  const GDPField: Field := Field("GDP", map[
    "value" := NoneV,
    "com" := Str("GDP in nominal term"),
    "units" := Str("Dollars")])

  const Prices: Group := Group("Prices", [
    muField, etaField, GDPField])

  // MISC
  const CoucouField: Field := Field("Coucou", map[
    "value" := Num("0"),
    "com" := Str("I am just a test"),
    "units" := NoneV])

  const Misc: Group := Group("MISC", [
    CoucouField])

  /** _LIBRARY */
  const Library: Library := [Numerical, Core, SalaryNegociation, Investment, Debt, Prices, Misc]

  /** Units that detectdimension parses without a multiplier: None, or a string without a space. */
  predicate SimpleUnits(s: Subject) {
    "units" in s && (s["units"] == NoneV || (s["units"].Str? && ' ' !in s["units"].text))
  }

  /** What CHECK_FIELDS and the conversion need of one field. */
  predicate Ready(f: Field) {
    WellDefined(f.subject) && Documented(f.subject) && SimpleUnits(f.subject)
  }

  predicate GroupReady(g: Group) {
    forall k :: 0 <= k < |g.fields| ==> Ready(g.fields[k])
  }

  lemma SimpleUnitsParse(s: Subject)
    requires SimpleUnits(s)
    ensures UnitsParse(s)
  {
    if s["units"].Str? {
      CountPositive(s["units"].text, ' ');
    }
  }

  lemma NumericalFieldsReady()
    ensures Ready(TmaxField)
    ensures Ready(dtField)
    ensures Ready(ntField)
    ensures Ready(nxField)
    ensures Ready(timeField)
  {
    assert Ready(TmaxField) by {
      assert TmaxField.subject["units"].Str?;
      assert ' ' !in TmaxField.subject["units"].text;
    }
    assert Ready(dtField) by {
      assert dtField.subject["units"].Str?;
      assert ' ' !in dtField.subject["units"].text;
    }
    assert Ready(ntField) by {
      assert ntField.subject["units"] == NoneV;
    }
    assert Ready(nxField) by {
      assert nxField.subject["units"].Str?;
      assert ' ' !in nxField.subject["units"].text;
    }
    assert Ready(timeField) by {
      assert timeField.subject["units"].Str?;
      assert ' ' !in timeField.subject["units"].text;
    }
  }

  lemma NumericalReady()
    ensures GroupReady(Numerical)
  {
    NumericalFieldsReady();
  }

  // The CORE group is checked a few fields at a time, in its field order:
  // N, beta | a | alpha, W, delta | nu, K, pi | g, Y | L | I, Pi.

  lemma CoreReadyNBeta()
    ensures Ready(NField)
    ensures Ready(betaField)
  {
    assert Ready(NField) by {
      assert NField.subject["units"].Str?;
      assert ' ' !in NField.subject["units"].text;
    }
    assert Ready(betaField) by {
      assert betaField.subject["units"].Str?;
      assert ' ' !in betaField.subject["units"].text;
    }
  }

  /** The units of 'a', the one CORE unit string with several pieces. */
  lemma ProductivityUnits()
    ensures "units" in aField.subject && aField.subject["units"].Str?
    ensures ' ' !in aField.subject["units"].text
  {
    assert aField.subject["units"] == Str("Units.Humans^{-1}.years^{-1}");
  }

  lemma CoreReadyA()
    ensures Ready(aField)
  {
    ProductivityUnits();
    assert WellDefined(aField.subject);
    assert Documented(aField.subject);
  }

  lemma CoreReadyAlphaWDelta()
    ensures Ready(alphaField)
    ensures Ready(WField)
    ensures Ready(deltaField)
  {
    assert Ready(alphaField) by {
      assert alphaField.subject["units"].Str?;
      assert ' ' !in alphaField.subject["units"].text;
    }
    assert Ready(WField) by {
      assert WField.subject["units"].Str?;
      assert ' ' !in WField.subject["units"].text;
    }
    assert Ready(deltaField) by {
      assert deltaField.subject["units"].Str?;
      assert ' ' !in deltaField.subject["units"].text;
    }
  }

  lemma CoreReadyNuKPi()
    ensures Ready(nuField)
    ensures Ready(KField)
    ensures Ready(piField)
  {
    assert Ready(nuField) by {
      assert nuField.subject["units"] == NoneV;
    }
    assert Ready(KField) by {
      assert KField.subject["units"].Str?;
      assert ' ' !in KField.subject["units"].text;
    }
    assert Ready(piField) by {
      assert piField.subject["units"].Str?;
      assert ' ' !in piField.subject["units"].text;
    }
  }

  lemma CoreReadyGY()
    ensures Ready(gField)
    ensures Ready(YField)
  {
    assert Ready(gField) by {
      assert gField.subject["units"].Str?;
      assert ' ' !in gField.subject["units"].text;
    }
    assert Ready(YField) by {
      assert YField.subject["units"].Str?;
      assert ' ' !in YField.subject["units"].text;
    }
  }

  lemma CoreReadyL()
    ensures Ready(LField)
  {
    assert LField.subject["units"].Str?;
    assert ' ' !in LField.subject["units"].text;
  }

  lemma CoreReadyIPi()
    ensures Ready(IField)
    ensures Ready(PiField)
  {
    assert Ready(IField) by {
      assert IField.subject["units"].Str?;
      assert ' ' !in IField.subject["units"].text;
    }
    assert Ready(PiField) by {
      assert PiField.subject["units"].Str?;
      assert ' ' !in PiField.subject["units"].text;
    }
  }

  /** Every field of CORE, from the pieces above. */
  lemma CoreReady()
    ensures GroupReady(Core)
  {
    CoreReadyNBeta();
    CoreReadyA();
    CoreReadyAlphaWDelta();
    CoreReadyNuKPi();
    CoreReadyGY();
    CoreReadyL();
    CoreReadyIPi();
  }

  lemma SalaryNegociationFieldsReady()
    ensures Ready(phillipsField)
    ensures Ready(phinullField)
    ensures Ready(phi0Field)
    ensures Ready(phi1Field)
  {
    assert Ready(phillipsField) by {
      assert phillipsField.subject["units"].Str?;
      assert ' ' !in phillipsField.subject["units"].text;
    }
    assert Ready(phinullField) by {
      assert phinullField.subject["units"] == NoneV;
    }
    assert Ready(phi0Field) by {
      assert phi0Field.subject["units"] == NoneV;
    }
    assert Ready(phi1Field) by {
      assert phi1Field.subject["units"] == NoneV;
    }
  }

  lemma SalaryNegociationReady()
    ensures GroupReady(SalaryNegociation)
  {
    SalaryNegociationFieldsReady();
  }

  lemma InvestmentFieldsReady()
    ensures Ready(kappaField)
    ensures Ready(k0Field)
    ensures Ready(k1Field)
    ensures Ready(k2Field)
  {
    assert Ready(kappaField) by {
      assert kappaField.subject["units"].Str?;
      assert ' ' !in kappaField.subject["units"].text;
    }
    assert Ready(k0Field) by {
      assert k0Field.subject["units"] == NoneV;
    }
    assert Ready(k1Field) by {
      assert k1Field.subject["units"] == NoneV;
    }
    assert Ready(k2Field) by {
      assert k2Field.subject["units"] == NoneV;
    }
  }

  lemma InvestmentReady()
    ensures GroupReady(Investment)
  {
    InvestmentFieldsReady();
  }

  lemma DebtFieldsReady()
    ensures Ready(rField)
    ensures Ready(DField)
    ensures Ready(dField)
  {
    assert Ready(rField) by {
      assert rField.subject["units"].Str?;
      assert ' ' !in rField.subject["units"].text;
    }
    assert Ready(DField) by {
      assert DField.subject["units"].Str?;
      assert ' ' !in DField.subject["units"].text;
    }
    assert Ready(dField) by {
      assert dField.subject["units"].Str?;
      assert ' ' !in dField.subject["units"].text;
    }
  }

  lemma DebtReady()
    ensures GroupReady(Debt)
  {
    DebtFieldsReady();
  }

  lemma PricesFieldsReady()
    ensures Ready(muField)
    ensures Ready(etaField)
    ensures Ready(GDPField)
  {
    assert Ready(muField) by {
      assert muField.subject["units"] == NoneV;
    }
    assert Ready(etaField) by {
      assert etaField.subject["units"].Str?;
      assert ' ' !in etaField.subject["units"].text;
    }
    assert Ready(GDPField) by {
      assert GDPField.subject["units"].Str?;
      assert ' ' !in GDPField.subject["units"].text;
    }
  }

  lemma PricesReady()
    ensures GroupReady(Prices)
  {
    PricesFieldsReady();
  }

  lemma MiscFieldsReady()
    ensures Ready(CoucouField)
  {
    assert Ready(CoucouField) by {
      assert CoucouField.subject["units"] == NoneV;
    }
  }

  lemma MiscReady()
    ensures GroupReady(Misc)
  {
    MiscFieldsReady();
  }

  /** Every field of the library is well defined, documented and has simple units. */
  lemma LibraryReady()
    ensures forall e :: e in Entries(Library) ==> Ready(Field(e.field, e.subject))
  {
    NumericalReady();
    CoreReady();
    SalaryNegociationReady();
    InvestmentReady();
    DebtReady();
    PricesReady();
    MiscReady();
    assert forall i :: 0 <= i < |Library| ==> GroupReady(Library[i]);
    forall e | e in Entries(Library) ensures Ready(Field(e.field, e.subject)) {
      InEntries(Library, e);
      var i, k :| 0 <= i < |Library| && 0 <= k < |Library[i].fields|
        && e == Located(Library[i].name, Library[i].fields[k].name, Library[i].fields[k].subject);
      assert Ready(Library[i].fields[k]);
    }
  }

  // Keys: no field name is declared twice

  const NumericalKeys: seq<string> := ["Tmax", "dt", "nt", "nx", "time"]
  const CoreKeys: seq<string> := ["N", "beta", "a", "alpha", "W", "delta", "nu", "K", "pi", "g", "Y", "L", "I", "Pi"]
  const SalaryNegociationKeys: seq<string> := ["phillips", "phinull", "phi0", "phi1"]
  const InvestmentKeys: seq<string> := ["kappa", "k0", "k1", "k2"]
  const DebtKeys: seq<string> := ["r", "D", "d"]
  const PricesKeys: seq<string> := ["mu", "eta", "GDP"]
  const MiscKeys: seq<string> := ["Coucou"]

  lemma NumericalNames()
    ensures FieldNames(Numerical) == NumericalKeys
  {
  }

  lemma CoreNames()
    ensures FieldNames(Core) == CoreKeys
  {
  }

  lemma SmallGroupNames()
    ensures FieldNames(SalaryNegociation) == SalaryNegociationKeys
    ensures FieldNames(Investment) == InvestmentKeys
  {
  }

  lemma TailGroupNames()
    ensures FieldNames(Debt) == DebtKeys
    ensures FieldNames(Prices) == PricesKeys
    ensures FieldNames(Misc) == MiscKeys
  {
  }

  /** The chained list of seven groups is their field names one after the other. */
  lemma SevenGroupNames(a: Group, b: Group, c: Group, d: Group, e: Group, f: Group, g: Group)
    ensures AllFieldNames([a, b, c, d, e, f, g])
      == FieldNames(a) + FieldNames(b) + FieldNames(c) + FieldNames(d) + FieldNames(e) + FieldNames(f) + FieldNames(g)
  {
    var fa, fb, fc, fd, fe, ff, fg :=
      FieldNames(a), FieldNames(b), FieldNames(c), FieldNames(d), FieldNames(e), FieldNames(f), FieldNames(g);
    calc {
      AllFieldNames([a, b, c, d, e, f, g]);
      == { assert [a, b, c, d, e, f, g] == [a, b, c, d, e, f] + [g]; AllFieldNamesSnoc([a, b, c, d, e, f], g); }
      AllFieldNames([a, b, c, d, e, f]) + fg;
      == { assert [a, b, c, d, e, f] == [a, b, c, d, e] + [f]; AllFieldNamesSnoc([a, b, c, d, e], f); }
      AllFieldNames([a, b, c, d, e]) + ff + fg;
      == { assert [a, b, c, d, e] == [a, b, c, d] + [e]; AllFieldNamesSnoc([a, b, c, d], e); }
      AllFieldNames([a, b, c, d]) + fe + ff + fg;
      == { assert [a, b, c, d] == [a, b, c] + [d]; AllFieldNamesSnoc([a, b, c], d); }
      AllFieldNames([a, b, c]) + fd + fe + ff + fg;
      == { assert [a, b, c] == [a, b] + [c]; AllFieldNamesSnoc([a, b], c); }
      AllFieldNames([a, b]) + fc + fd + fe + ff + fg;
      == { assert [a, b] == [a] + [b]; AllFieldNamesSnoc([a], b); }
      AllFieldNames([a]) + fb + fc + fd + fe + ff + fg;
      == { assert [a] == [] + [a]; AllFieldNamesSnoc([], a); }
      fa + fb + fc + fd + fe + ff + fg;
    }
  }

  /** The chained list of field names, group by group in library order. */
  lemma LibraryNames()
    ensures AllFieldNames(Library)
      == NumericalKeys + CoreKeys + SalaryNegociationKeys + InvestmentKeys + DebtKeys + PricesKeys + MiscKeys
  {
    NumericalNames();
    CoreNames();
    SmallGroupNames();
    TailGroupNames();
    SevenGroupNames(Numerical, Core, SalaryNegociation, Investment, Debt, Prices, Misc);
  }

  lemma NumericalCoreDisjoint()
    ensures Distinct(NumericalKeys)
    ensures forall x :: x in NumericalKeys ==> x !in CoreKeys
  {
  }

  lemma HeadKeysDistinct()
    ensures Distinct(NumericalKeys + CoreKeys)
  {
    NumericalCoreDisjoint();
    CoreKeysDistinct();
    DistinctConcat(NumericalKeys, CoreKeys);
  }

  lemma TailKeysDistinct()
    ensures Distinct(SalaryNegociationKeys + InvestmentKeys + DebtKeys + PricesKeys + MiscKeys)
  {
  }

  lemma NumericalTailDisjoint()
    ensures forall x :: (x in NumericalKeys
                         ==> x !in SalaryNegociationKeys + InvestmentKeys + DebtKeys + PricesKeys + MiscKeys)
  {
  }

  lemma CoreTailDisjoint()
    ensures forall x :: (x in CoreKeys
                         ==> x !in SalaryNegociationKeys + InvestmentKeys + DebtKeys + PricesKeys + MiscKeys)
  {
  }

  lemma HeadTailDisjoint()
    ensures forall x :: (x in NumericalKeys + CoreKeys
                         ==> x !in SalaryNegociationKeys + InvestmentKeys + DebtKeys + PricesKeys + MiscKeys)
  {
    NumericalTailDisjoint();
    CoreTailDisjoint();
  }

  /** The chained list of the 34 field names of the library has no repetition. */
  lemma LibraryNamesDistinct()
    ensures Distinct(AllFieldNames(Library))
  {
    var head := NumericalKeys + CoreKeys;
    var tail := SalaryNegociationKeys + InvestmentKeys + DebtKeys + PricesKeys + MiscKeys;
    HeadKeysDistinct();
    TailKeysDistinct();
    HeadTailDisjoint();
    DistinctConcat(head, tail);
    LibraryNames();
    assert head + tail
      == NumericalKeys + CoreKeys + SalaryNegociationKeys + InvestmentKeys + DebtKeys + PricesKeys + MiscKeys;
  }

  lemma CoreKeysDistinct()
    ensures Distinct(CoreKeys)
  {
  }

  lemma HeadGroupsDistinct()
    ensures Distinct(FieldNames(Numerical)) && Distinct(FieldNames(Core))
  {
    NumericalNames();
    CoreNames();
    CoreKeysDistinct();
    assert Distinct(NumericalKeys);
  }

  lemma SmallGroupsDistinct()
    ensures Distinct(FieldNames(SalaryNegociation)) && Distinct(FieldNames(Investment))
  {
    SmallGroupNames();
    assert Distinct(SalaryNegociationKeys) && Distinct(InvestmentKeys);
  }

  lemma TailGroupsDistinct()
    ensures Distinct(FieldNames(Debt)) && Distinct(FieldNames(Prices)) && Distinct(FieldNames(Misc))
  {
    TailGroupNames();
    assert Distinct(DebtKeys) && Distinct(PricesKeys) && Distinct(MiscKeys);
  }

  /** The library literal is a well-formed dictionary of dictionaries. */
  lemma LibraryWellFormed()
    ensures WellFormed(Library)
  {
    HeadGroupsDistinct();
    SmallGroupsDistinct();
    TailGroupsDistinct();
    assert forall i :: 0 <= i < |Library| ==> Distinct(FieldNames(Library[i]));
  }

  /** Distinct field names give no duplicate. */
  lemma DistinctNoDuplicates(lib: Library)
    requires Distinct(AllFieldNames(lib))
    ensures Duplicates(lib) == {}
  {
    var names := AllFieldNames(lib);
    forall x | x in names ensures Count(names, x) <= 1 {
      CountDistinct(names, x);
    }
  }

  /** Any library with distinct field names and only ready fields passes the check. */
  lemma ReadyLibraryPasses(lib: Library)
    requires Distinct(AllFieldNames(lib))
    requires forall e :: e in Entries(lib) ==> Ready(Field(e.field, e.subject))
    ensures Warnings(lib) == [] && Errors(lib) == []
    ensures Decide(Warnings(lib), Errors(lib)) == Passed
  {
    DistinctNoDuplicates(lib);
    ConsistencyErrorsBound(Entries(lib));
    MissingInfosEmpty(Entries(lib));
  }

  /** The check run when the module is imported lets the library through. */
  lemma LibraryPasses()
    ensures Warnings(Library) == [] && Errors(Library) == []
    ensures Decide(Warnings(Library), Errors(Library)) == Passed
  {
    LibraryReady();
    LibraryNamesDistinct();
    ReadyLibraryPasses(Library);
  }

  /** The conversion at import time, with the default comment and unit, raises nothing. */
  lemma LibraryConverts(t: Table)
    ensures Convert(Entries(Library), RecordOf(DefaultFields), t).raised.None?
  {
    LibraryPasses();
    LibraryReady();
    forall e | e in Entries(Library) ensures UnitsParse(e.subject) {
      SimpleUnitsParse(e.subject);
    }
    CheckedLibraryConverts(Library, DefaultFields, t);
  }
}
