/**
 * from_Library_to_DFIELDS: flattens the grouped library into the field
 * dictionary the solver uses. Every field becomes one record keyed by its
 * name: a function field keeps its lambda under 'value', an ODE keeps its
 * lambda under 'ode' and its initial condition under 'initial', any other
 * field keeps its 'value'; each record also carries a comment, units, a type,
 * the parsed dimension dictionary, a symbol and its group. The target
 * dictionary is updated in place and returned.
 */
module Conversion {
  import opened Fields
  import opened PyText
  import opened Units
  import opened Validation

  /** Which of the three record layouts a field gets. */
  datatype Kind =
    | Function(value: Attr)            // {'value': subject['func'], ...}
    | Ode(ode: Attr, initial: Attr)    // {'ode': subject['ode'], 'initial': subject['value'], ...}
    | Parameter(value: Attr)           // {'value': subject['value'], ...}

  /** One entry of the field dictionary. */
  datatype Record = Record(
    kind: Kind,
    com: Attr,
    units: Attr,
    typ: TypeTag,
    dimension: Dims,
    symbol: Attr,
    group: string)

  /** The module's default comment and units: both the empty string. */
  const DefaultFields: Subject := map["com" := Str(""), "units" := Str("")]

  /** subject.get(key, default) */
  function GetOr(s: Subject, key: string, default: Attr): Attr {
    if key in s then s[key] else default
  }

  /** defaults[key], which raises KeyError when the key is missing. */
  function Lookup(defaults: Subject, key: string): Result<Attr, PyError> {
    if key in defaults then Success(defaults[key]) else Failure(KeyError(key))
  }

  /** The branch choice: 'func' first, then 'ode', then a plain value. */
  function KindOf(s: Subject): Result<Kind, PyError> {
    if "func" in s then Success(Function(s["func"]))
    else if "ode" in s then
      (if "value" in s then Success(Ode(s["ode"], s["value"])) else Failure(KeyError("value")))
    else if "value" in s then Success(Parameter(s["value"]))
    else Failure(KeyError("value"))
  }

  /**
   * The dictionary literal built for one field, with Python's evaluation
   * order: the value/ode/initial items, then the comment and units (whose
   * defaults are looked up eagerly), then detectype and detectdimension. The
   * plain-value branch evaluates the symbol before the type, which cannot
   * change the outcome since the symbol lookup never raises.
   */
  function ToRecord(e: Located, defaults: Subject): Result<Record, PyError> {
    var s := e.subject;
    var kind :- KindOf(s);
    var comDefault :- Lookup(defaults, "com");
    var unitsDefault :- Lookup(defaults, "units");
    var typ :- DetectType(s);
    var dimension :- DimensionsOf(s);
    Success(Record(kind, GetOr(s, "com", comDefault), GetOr(s, "units", unitsDefault),
                   typ, dimension, GetOr(s, "symbol", Str(e.field)), e.group))
  }

  // ---------------------------------------------------------------- the field dictionary

  /** An insertion-ordered dictionary from field names to records. */
  datatype Table = Table(order: seq<string>, records: map<string, Record>)

  ghost predicate TableValid(t: Table) {
    && Distinct(t.order)
    && (forall k :: k in t.records <==> k in t.order)
  }

  /** d[k] = r: a new key goes last, an existing key keeps its place. */
  function Put(t: Table, k: string, r: Record): Table {
    Table(if k in t.records then t.order else t.order + [k], t.records[k := r])
  }

  lemma PutValid(t: Table, k: string, r: Record)
    requires TableValid(t)
    ensures TableValid(Put(t, k, r))
    ensures t.order <= Put(t, k, r).order
    ensures Put(t, k, r).records.Keys == t.records.Keys + {k}
  {
  }

  /** How the record of one field is built (or the exception it raises). */
  type Builder = Located -> Result<Record, PyError>

  /** The dictionary literal of from_Library_to_DFIELDS, with the given defaults. */
  function RecordOf(defaults: Subject): Builder {
    e => ToRecord(e, defaults)
  }

  /** The state reached by a run of the loop, and the exception that stopped it, if any. */
  datatype Run = Run(table: Table, raised: Option<PyError>)

  /** The loop over the fields in order, stopping at the first exception. */
  function Convert(es: seq<Located>, build: Builder, t: Table): Run
    decreases |es|
  {
    if es == [] then Run(t, None)
    else
      var prev := Convert(es[..|es| - 1], build, t);
      if prev.raised.Some? then prev
      else
        var e := es[|es| - 1];
        match build(e)
        case Success(r) => Run(Put(prev.table, e.field, r), None)
        case Failure(err) => Run(prev.table, Some(err))
  }

  /** The value from_Library_to_DFIELDS returns, or the exception it raises. */
  function Outcome<T>(run: Run, target: T): Result<T, PyError> {
    if run.raised.Some? then Failure(run.raised.value) else Success(target)
  }

  /** The dictionary the records are written into (the mutable '_DFIELDS'). */
  class DFields {
    var order: seq<string>
    var records: map<string, Record>

    function Snapshot(): Table
      reads this
    {
      Table(order, records)
    }

    ghost predicate Valid()
      reads this
    {
      TableValid(Snapshot())
    }

    /** An empty dictionary, as the default argument starts out. */
    constructor ()
      ensures Snapshot() == Table([], map[])
      ensures Valid()
    {
      order := [];
      records := map[];
    }

    /** d[field] = record */
    method Store(field: string, record: Record)
      requires Valid()
      modifies this
      ensures Valid()
      ensures Snapshot() == Put(old(Snapshot()), field, record)
    {
      PutValid(Snapshot(), field, record);
      if field !in records {
        order := order + [field];
      }
      records := records[field := record];
    }
  }

  /**
   * from_Library_to_DFIELDS: writes one record per field, group by group,
   * into dfields and returns it; the first exception stops the loop and
   * leaves the records written before it in place.
   */
  method FromLibraryToDFields(lib: Library, defaults: Subject, dfields: DFields)
    returns (r: Result<DFields, PyError>)
    requires dfields.Valid()
    modifies dfields
    ensures dfields.Valid()
    ensures dfields.Snapshot() == Convert(Entries(lib), RecordOf(defaults), old(dfields.Snapshot())).table
    ensures r == Outcome(Convert(Entries(lib), RecordOf(defaults), old(dfields.Snapshot())), dfields)
  {
    ghost var start := dfields.Snapshot();
    ghost var seen: seq<Located> := [];
    var g := 0;
    while g < |lib|
      invariant 0 <= g <= |lib|
      invariant seen == Entries(lib[..g])
      invariant dfields.Valid()
      invariant Convert(seen, RecordOf(defaults), start) == Run(dfields.Snapshot(), None)
    {
      var group := lib[g];
      ghost var done := seen;
      var f := 0;
      LocateNone(group, done);
      while f < |group.fields|
        invariant 0 <= f <= |group.fields|
        invariant seen == done + Locate(group.name, group.fields[..f])
        invariant dfields.Valid()
        invariant Convert(seen, RecordOf(defaults), start) == Run(dfields.Snapshot(), None)
      {
        var field := group.fields[f].name;
        var subject := group.fields[f].subject;
        var entry := Located(group.name, field, subject);
        var record := ToRecord(entry, defaults);
        ConvertSnoc(seen, entry, RecordOf(defaults), start);
        LocateStep(group, f, done, seen);
        if record.Failure? {
          SeenPrefix(lib, g, f + 1);
          ConvertStopped(seen + [entry], Entries(lib), RecordOf(defaults), start);
          return Failure(record.error);
        }
        dfields.Store(field, record.value);
        seen := seen + [entry];
        f := f + 1;
      }
      EntriesStep(lib, g, seen);
      g := g + 1;
    }
    assert lib[..g] == lib;
    return Success(dfields);
  }

  // ---------------------------------------------------------------- one record

  lemma ConvertSnoc(es: seq<Located>, e: Located, build: Builder, t: Table)
    ensures Convert(es + [e], build, t)
      == var prev := Convert(es, build, t);
         if prev.raised.Some? then prev
         else match build(e)
           case Success(r) => Run(Put(prev.table, e.field, r), None)
           case Failure(err) => Run(prev.table, Some(err))
  {
    assert (es + [e])[..|es|] == es;
  }

  /**
   * A record is built exactly when the field has a function or a value, the
   * defaults hold 'com' and 'units', and its units parse.
   */
  lemma RecordSucceedsIff(e: Located, defaults: Subject)
    ensures ToRecord(e, defaults).Success?
      <==> && ("func" in e.subject || "value" in e.subject)
           && "com" in defaults && "units" in defaults
           && DimensionsOf(e.subject).Success?
  {
    DetectTypeFacts(e.subject);
  }

  /**
   * The exception raised for a field is the first of: the missing 'value',
   * the missing default comment, the missing default units, the units error.
   */
  lemma RecordError(e: Located, defaults: Subject)
    ensures var s := e.subject;
      "func" !in s && "value" !in s ==> ToRecord(e, defaults) == Failure(KeyError("value"))
    ensures var s := e.subject;
      ("func" in s || "value" in s) && "com" !in defaults ==> ToRecord(e, defaults) == Failure(KeyError("com"))
    ensures var s := e.subject;
      (("func" in s || "value" in s) && "com" in defaults && "units" !in defaults) ==>
        ToRecord(e, defaults) == Failure(KeyError("units"))
    ensures var s := e.subject;
      (("func" in s || "value" in s) && "com" in defaults && "units" in defaults && DimensionsOf(s).Failure?) ==>
        ToRecord(e, defaults) == Failure(DimensionsOf(s).error)
  {
    DetectTypeError(e.subject);
  }

  /** A field without 'units' always raises, whatever the defaults hold. */
  lemma RecordNeedsUnits(e: Located, defaults: Subject)
    requires "units" !in e.subject
    ensures ToRecord(e, defaults).Failure?
  {
    DetectTypeError(e.subject);
  }

  /**
   * The branch taken: 'func' wins over 'ode', which wins over a plain value;
   * an ODE's initial condition is the field's 'value'.
   */
  lemma RecordKind(e: Located, defaults: Subject)
    requires ToRecord(e, defaults).Success?
    ensures var s, k := e.subject, ToRecord(e, defaults).value.kind;
      && ("func" in s ==> k == Function(s["func"]))
      && ("func" !in s && "ode" in s ==> "value" in s && k == Ode(s["ode"], s["value"]))
      && ("func" !in s && "ode" !in s ==> "value" in s && k == Parameter(s["value"]))
  {
  }

  /**
   * Missing comment and units come from the defaults, a missing symbol is the
   * field's own name, the group is the one the field was read from, and the
   * dimension and type are those detectdimension and detectype compute.
   */
  lemma RecordFields(e: Located, defaults: Subject)
    requires ToRecord(e, defaults).Success?
    ensures var s, r := e.subject, ToRecord(e, defaults).value;
      && r.com == (if "com" in s then s["com"] else defaults["com"])
      && r.units == (if "units" in s then s["units"] else defaults["units"])
      && r.symbol == (if "symbol" in s then s["symbol"] else Str(e.field))
      && r.group == e.group
      && DimensionsOf(s) == Success(r.dimension)
      && Multiplier in r.dimension
      && r.typ != Dimensionless
      && (r.typ == Intensive <==> |r.dimension.Keys - {FilteredKey}| >= 2)
  {
    DetectTypeFacts(e.subject);
    DimensionsHaveMultiplier(e.subject);
  }

  // ---------------------------------------------------------------- the loop

  /** Once an exception is raised, further fields change nothing. */
  lemma {:induction false} ConvertStopped(a: seq<Located>, b: seq<Located>, build: Builder, t: Table)
    requires a <= b
    requires Convert(a, build, t).raised.Some?
    ensures Convert(b, build, t) == Convert(a, build, t)
    decreases |b|
  {
    if |b| > |a| {
      var init := b[..|b| - 1];
      assert a <= init by {
        assert init[..|a|] == b[..|a|];
      }
      ConvertStopped(a, init, build, t);
    } else {
      assert a == b;
    }
  }

  /** The dictionary stays a dictionary: distinct keys, each with its record. */
  lemma {:induction false} ConvertKeepsValid(es: seq<Located>, build: Builder, t: Table)
    requires TableValid(t)
    ensures TableValid(Convert(es, build, t).table)
    ensures t.order <= Convert(es, build, t).table.order
    decreases |es|
  {
    if es != [] {
      var init := es[..|es| - 1];
      ConvertKeepsValid(init, build, t);
      var prev := Convert(init, build, t);
      if prev.raised.None? && build(es[|es| - 1]).Success? {
        PutValid(prev.table, es[|es| - 1].field, build(es[|es| - 1]).value);
      }
    }
  }

  /** Nothing is raised exactly when every record can be built. */
  lemma {:induction false} ConvertSucceeds(es: seq<Located>, build: Builder, t: Table)
    ensures Convert(es, build, t).raised.None?
      <==> forall i :: 0 <= i < |es| ==> build(es[i]).Success?
    decreases |es|
  {
    if es != [] {
      var init, e := es[..|es| - 1], es[|es| - 1];
      ConvertSucceeds(init, build, t);
      var ok := build(e).Success?;
      assert Convert(es, build, t).raised.None? <==> Convert(init, build, t).raised.None? && ok;
      if forall i :: 0 <= i < |es| ==> build(es[i]).Success? {
        forall i | 0 <= i < |init| ensures build(init[i]).Success? {
          assert init[i] == es[i];
        }
      }
      if Convert(es, build, t).raised.None? {
        forall i | 0 <= i < |es| ensures build(es[i]).Success? {
          if i < |init| {
            assert es[i] == init[i];
          }
        }
      }
    }
  }

  /** The first field whose record cannot be built decides the exception. */
  lemma {:induction false} ConvertFirstFailure(es: seq<Located>, build: Builder, t: Table)
    requires Convert(es, build, t).raised.Some?
    ensures exists i :: (&& 0 <= i < |es|
                         && build(es[i]) == Failure(Convert(es, build, t).raised.value)
                         && forall j :: 0 <= j < i ==> build(es[j]).Success?)
    decreases |es|
  {
    var init, e := es[..|es| - 1], es[|es| - 1];
    var prev := Convert(init, build, t);
    assert forall j :: 0 <= j < |init| ==> init[j] == es[j];
    if prev.raised.Some? {
      assert Convert(es, build, t) == prev;
      ConvertFirstFailure(init, build, t);
      var i :| 0 <= i < |init| && build(init[i]) == Failure(prev.raised.value)
        && forall j :: 0 <= j < i ==> build(init[j]).Success?;
      assert es[i] == init[i];
    } else {
      ConvertSucceeds(init, build, t);
      assert build(es[|es| - 1]) == Failure(Convert(es, build, t).raised.value);
    }
  }

  /** After a full run the keys are the old keys plus every converted field name. */
  lemma {:induction false} ConvertKeys(es: seq<Located>, build: Builder, t: Table)
    requires Convert(es, build, t).raised.None?
    ensures Convert(es, build, t).table.records.Keys == t.records.Keys + (set e | e in es :: e.field)
    decreases |es|
  {
    if es != [] {
      var init, e := es[..|es| - 1], es[|es| - 1];
      var prev := Convert(init, build, t);
      assert prev.raised.None? && build(e).Success?;
      ConvertKeys(init, build, t);
      assert Convert(es, build, t).table == Put(prev.table, e.field, build(e).value);
      FieldSetSnoc(es);
    }
  }

  lemma FieldSetSnoc(es: seq<Located>)
    requires es != []
    ensures (set x | x in es :: x.field) == (set x | x in es[..|es| - 1] :: x.field) + {es[|es| - 1].field}
  {
    assert es == es[..|es| - 1] + [es[|es| - 1]];
  }

  /** A key that no converted field writes keeps its old record (the dictionary is not cleared). */
  lemma {:induction false} ConvertUntouched(es: seq<Located>, build: Builder, t: Table, k: string)
    requires forall e :: e in es ==> e.field != k
    ensures k in Convert(es, build, t).table.records <==> k in t.records
    ensures k in t.records ==> Convert(es, build, t).table.records[k] == t.records[k]
    decreases |es|
  {
    if es != [] {
      var init := es[..|es| - 1];
      assert forall e :: e in init ==> e in es;
      ConvertUntouched(init, build, t, k);
    }
  }

  /** When a name occurs in several groups, the last occurrence's record is the one kept. */
  lemma {:induction false} ConvertLastWins(es: seq<Located>, build: Builder, t: Table, i: nat)
    requires Convert(es, build, t).raised.None?
    requires i < |es|
    requires forall j :: i < j < |es| ==> es[j].field != es[i].field
    ensures build(es[i]).Success?
    ensures es[i].field in Convert(es, build, t).table.records
    ensures Convert(es, build, t).table.records[es[i].field] == build(es[i]).value
    decreases |es|
  {
    var init := es[..|es| - 1];
    assert Convert(init, build, t).raised.None?;
    if i < |es| - 1 {
      ConvertLastWins(init, build, t, i);
    }
  }

  // ---------------------------------------------------------------- with CHECK_FIELDS

  /** Units that detectdimension accepts: None, or a string with at most one space. */
  predicate UnitsParse(s: Subject) {
    "units" in s && (s["units"] == NoneV || (s["units"].Str? && Count(s["units"].text, ' ') <= 1))
  }

  lemma UnitsParseSucceeds(s: Subject)
    requires UnitsParse(s)
    ensures DimensionsOf(s).Success?
  {
    if s["units"].Str? {
      DimensionsTokenCount(s, s["units"].text);
    }
  }

  /**
   * A library that CHECK_FIELDS lets through converts without an exception,
   * given defaults for 'com' and 'units' and units that parse.
   */
  lemma CheckedLibraryConverts(lib: Library, defaults: Subject, t: Table)
    requires Decide(Warnings(lib), Errors(lib)) == Passed
    requires "com" in defaults && "units" in defaults
    requires forall e :: e in Entries(lib) ==> UnitsParse(e.subject)
    ensures Convert(Entries(lib), RecordOf(defaults), t).raised.None?
  {
    var es := Entries(lib);
    ConsistencyErrorsBound(es);
    forall i | 0 <= i < |es| ensures RecordOf(defaults)(es[i]).Success? {
      assert es[i] in es;
      UnitsParseSucceeds(es[i].subject);
      RecordSucceedsIff(es[i], defaults);
    }
    ConvertSucceeds(es, RecordOf(defaults), t);
  }
}
