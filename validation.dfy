/**
 * CHECK_FIELDS: validates a field library. It collects error messages (a
 * field name declared in several groups; a field that is not exactly one of
 * function, ODE with initial value, or plain value) and warning messages
 * (missing 'com' or 'units'), then raises Warning if there is any warning,
 * else ValueError if there is any error.
 */
module Validation {
  import opened Fields
  import opened PyText

  /** One line of the accumulated error or warning text. */
  datatype Msg =
    | DefinedInMultipleGroups(keys: set<string>)
    | FuncAndValue(field: string, group: string)
    | OdeWithoutInitial(field: string, group: string)
    | ParameterWithoutValue(field: string, group: string)
    | NoComment(field: string, group: string)
    | NoUnit(field: string, group: string)

  /** How CHECK_FIELDS ends: normally, by raising Warning, or by raising ValueError. */
  datatype Verdict = Passed | RaisedWarning(warnings: seq<Msg>) | RaisedValueError(errors: seq<Msg>)

  /** Names counted more than once in the chained list of all field names. */
  function Duplicates(lib: Library): set<string> {
    var listofkeys := AllFieldNames(lib);
    set x | x in listofkeys && Count(listofkeys, x) > 1
  }

  function DuplicateErrors(lib: Library): seq<Msg> {
    var duplicates := Duplicates(lib);
    if |duplicates| > 0 then [DefinedInMultipleGroups(duplicates)] else []
  }

  /** The consistency rule applied to one field: the first of three tests that fires, if any. */
  function ConsistencyError(e: Located): seq<Msg> {
    var s := e.subject;
    if "func" in s && "value" in s then [FuncAndValue(e.field, e.group)]
    else if "ode" in s && "value" !in s then [OdeWithoutInitial(e.field, e.group)]
    else if "func" !in s && "value" !in s then [ParameterWithoutValue(e.field, e.group)]
    else []
  }

  /** The missing-comment warning, then the missing-unit warning. */
  function MissingInfo(e: Located): (r: seq<Msg>)
    ensures |r| == (if "com" !in e.subject then 1 else 0) + (if "units" !in e.subject then 1 else 0)
    ensures r == [] <==> Documented(e.subject)
    ensures forall i :: 0 <= i < |r| ==> r[i] in {NoComment(e.field, e.group), NoUnit(e.field, e.group)}
    ensures NoComment(e.field, e.group) in r <==> "com" !in e.subject
    ensures NoUnit(e.field, e.group) in r <==> "units" !in e.subject
    ensures |r| == 2 ==> r[0] == NoComment(e.field, e.group)
  {
    (if "com" !in e.subject then [NoComment(e.field, e.group)] else [])
    + (if "units" !in e.subject then [NoUnit(e.field, e.group)] else [])
  }

  function ConsistencyErrors(es: seq<Located>): seq<Msg>
    decreases |es|
  {
    if es == [] then [] else ConsistencyErrors(es[..|es| - 1]) + ConsistencyError(es[|es| - 1])
  }

  function MissingInfos(es: seq<Located>): seq<Msg>
    decreases |es|
  {
    if es == [] then [] else MissingInfos(es[..|es| - 1]) + MissingInfo(es[|es| - 1])
  }

  function Errors(lib: Library): seq<Msg> {
    DuplicateErrors(lib) + ConsistencyErrors(Entries(lib))
  }

  function Warnings(lib: Library): seq<Msg> {
    MissingInfos(Entries(lib))
  }

  /** Warnings are raised first; errors only when there is no warning. */
  function Decide(warnings: seq<Msg>, errors: seq<Msg>): (r: Verdict)
    ensures r == Passed <==> warnings == [] && errors == []
    ensures r.RaisedWarning? <==> warnings != []
    ensures r.RaisedWarning? ==> r.warnings == warnings
    ensures r.RaisedValueError? ==> r.errors == errors && errors != []
  {
    if |warnings| > 0 then RaisedWarning(warnings)
    else if |errors| > 0 then RaisedValueError(errors)
    else Passed
  }

  /** A field is exactly one of: a function without value or ODE, a value with an ODE, a plain value. */
  predicate WellDefined(s: Subject) {
    || ("func" in s && "value" !in s && "ode" !in s)
    || ("value" in s && "func" !in s)
  }

  predicate Documented(s: Subject) {
    "com" in s && "units" in s
  }

  /** Some field name is declared by two different groups. */
  predicate SharedName(lib: Library, x: string) {
    exists i, j :: 0 <= i < j < |lib| && x in FieldNames(lib[i]) && x in FieldNames(lib[j])
  }

  /** The body of the field loop: at most one consistency error, then the missing-information warnings. */
  method CheckField(field: string, group: string, subject: Subject, errors: seq<Msg>, warnings: seq<Msg>)
    returns (errormessage: seq<Msg>, warningmessage: seq<Msg>)
    ensures errormessage == errors + ConsistencyError(Located(group, field, subject))
    ensures warningmessage == warnings + MissingInfo(Located(group, field, subject))
  {
    errormessage, warningmessage := errors, warnings;
    if "func" in subject && "value" in subject {
      errormessage := errormessage + [FuncAndValue(field, group)];
    } else if "ode" in subject && "value" !in subject {
      errormessage := errormessage + [OdeWithoutInitial(field, group)];
    } else if "func" !in subject && "value" !in subject {
      errormessage := errormessage + [ParameterWithoutValue(field, group)];
    }
    if "com" !in subject {
      warningmessage := warningmessage + [NoComment(field, group)];
    }
    if "units" !in subject {
      warningmessage := warningmessage + [NoUnit(field, group)];
    }
  }

  /** The field loop over one group; the MISC test that follows it builds a message that is never appended. */
  method CheckGroup(group: Group, errors: seq<Msg>, warnings: seq<Msg>)
    returns (errormessage: seq<Msg>, warningmessage: seq<Msg>)
    ensures errormessage == errors + ConsistencyErrors(GroupEntries(group))
    ensures warningmessage == warnings + MissingInfos(GroupEntries(group))
  {
    errormessage, warningmessage := errors, warnings;
    var f := 0;
    assert group.fields[..f] == [];
    while f < |group.fields|
      invariant 0 <= f <= |group.fields|
      invariant errormessage == errors + ConsistencyErrors(Locate(group.name, group.fields[..f]))
      invariant warningmessage == warnings + MissingInfos(Locate(group.name, group.fields[..f]))
    {
      var field := group.fields[f].name;
      var subject := group.fields[f].subject;
      ghost var seen := Locate(group.name, group.fields[..f]);
      LocateSnoc(group, f);
      CheckStep(seen, Located(group.name, field, subject), errors, warnings, errormessage, warningmessage);
      errormessage, warningmessage := CheckField(field, group.name, subject, errormessage, warningmessage);
      f := f + 1;
    }
    assert group.fields[..f] == group.fields;
  }

  /** CHECK_FIELDS */
  method CheckFields(lib: Library) returns (verdict: Verdict)
    ensures verdict == Decide(Warnings(lib), Errors(lib))
  {
    // 1) no field defined in two places
    var errormessage := DuplicateErrors(lib);
    var warningmessage: seq<Msg> := [];

    // 2) consistent behaviour fields
    ghost var dups := errormessage;
    var g := 0;
    while g < |lib|
      invariant 0 <= g <= |lib|
      invariant errormessage == dups + ConsistencyErrors(Entries(lib[..g]))
      invariant warningmessage == MissingInfos(Entries(lib[..g]))
    {
      GroupStep(lib, g, dups, errormessage, warningmessage);
      errormessage, warningmessage := CheckGroup(lib[g], errormessage, warningmessage);
      g := g + 1;
    }
    assert lib[..g] == lib;
    assert errormessage == Errors(lib) && warningmessage == Warnings(lib);

    if |warningmessage| > 0 {
      return RaisedWarning(warningmessage);
    }
    if |errormessage| > 0 {
      return RaisedValueError(errormessage);
    }
    return Passed;
  }

  // ---------------------------------------------------------------- duplicates

  lemma CountFieldNames(g: Group, x: string)
    requires Distinct(FieldNames(g))
    ensures Count(FieldNames(g), x) == if x in FieldNames(g) then 1 else 0
  {
    CountDistinct(FieldNames(g), x);
  }

  /** The bookkeeping of one turn of the field loop. */
  lemma CheckStep(seen: seq<Located>, e: Located, errors0: seq<Msg>, warnings0: seq<Msg>,
                  errors: seq<Msg>, warnings: seq<Msg>)
    requires errors == errors0 + ConsistencyErrors(seen)
    requires warnings == warnings0 + MissingInfos(seen)
    ensures errors + ConsistencyError(e) == errors0 + ConsistencyErrors(seen + [e])
    ensures warnings + MissingInfo(e) == warnings0 + MissingInfos(seen + [e])
  {
    ConsistencyErrorsSnoc(seen, e);
    MissingInfosSnoc(seen, e);
    AppendAssoc(errors0, ConsistencyErrors(seen), ConsistencyError(e));
    AppendAssoc(warnings0, MissingInfos(seen), MissingInfo(e));
  }

  /** The bookkeeping of one turn of the group loop. */
  lemma GroupStep(lib: Library, g: nat, dups: seq<Msg>, errors: seq<Msg>, warnings: seq<Msg>)
    requires g < |lib|
    requires errors == dups + ConsistencyErrors(Entries(lib[..g]))
    requires warnings == MissingInfos(Entries(lib[..g]))
    ensures errors + ConsistencyErrors(GroupEntries(lib[g])) == dups + ConsistencyErrors(Entries(lib[..g + 1]))
    ensures warnings + MissingInfos(GroupEntries(lib[g])) == MissingInfos(Entries(lib[..g + 1]))
  {
    var before, group := Entries(lib[..g]), GroupEntries(lib[g]);
    PrefixSnoc(lib, g);
    EntriesSnoc(lib[..g], lib[g]);
    assert Entries(lib[..g + 1]) == before + group;
    calc {
      errors + ConsistencyErrors(group);
      dups + ConsistencyErrors(before) + ConsistencyErrors(group);
      { AppendAssoc(dups, ConsistencyErrors(before), ConsistencyErrors(group)); }
      dups + (ConsistencyErrors(before) + ConsistencyErrors(group));
      { ConsistencyErrorsAppend(before, group); }
      dups + ConsistencyErrors(before + group);
    }
    MissingInfosAppend(before, group);
  }

  lemma {:induction false} ConsistencyErrorsAppend(a: seq<Located>, b: seq<Located>)
    ensures ConsistencyErrors(a + b) == ConsistencyErrors(a) + ConsistencyErrors(b)
    decreases |b|
  {
    if b == [] {
      assert a + b == a;
    } else {
      var init, e := b[..|b| - 1], b[|b| - 1];
      assert b == init + [e];
      assert a + b == (a + init) + [e];
      calc {
        ConsistencyErrors(a + b);
        { ConsistencyErrorsSnoc(a + init, e); }
        ConsistencyErrors(a + init) + ConsistencyError(e);
        { ConsistencyErrorsAppend(a, init); }
        ConsistencyErrors(a) + ConsistencyErrors(init) + ConsistencyError(e);
        { AppendAssoc(ConsistencyErrors(a), ConsistencyErrors(init), ConsistencyError(e)); }
        ConsistencyErrors(a) + (ConsistencyErrors(init) + ConsistencyError(e));
        { ConsistencyErrorsSnoc(init, e); }
        ConsistencyErrors(a) + ConsistencyErrors(b);
      }
    }
  }

  lemma {:induction false} MissingInfosAppend(a: seq<Located>, b: seq<Located>)
    ensures MissingInfos(a + b) == MissingInfos(a) + MissingInfos(b)
    decreases |b|
  {
    if b == [] {
      assert a + b == a;
    } else {
      var init, e := b[..|b| - 1], b[|b| - 1];
      assert b == init + [e];
      assert a + b == (a + init) + [e];
      calc {
        MissingInfos(a + b);
        { MissingInfosSnoc(a + init, e); }
        MissingInfos(a + init) + MissingInfo(e);
        { MissingInfosAppend(a, init); }
        MissingInfos(a) + MissingInfos(init) + MissingInfo(e);
        { AppendAssoc(MissingInfos(a), MissingInfos(init), MissingInfo(e)); }
        MissingInfos(a) + (MissingInfos(init) + MissingInfo(e));
        { MissingInfosSnoc(init, e); }
        MissingInfos(a) + MissingInfos(b);
      }
    }
  }

  lemma ConsistencyErrorsSnoc(es: seq<Located>, e: Located)
    ensures ConsistencyErrors(es + [e]) == ConsistencyErrors(es) + ConsistencyError(e)
  {
    assert (es + [e])[..|es|] == es;
  }

  lemma MissingInfosSnoc(es: seq<Located>, e: Located)
    ensures MissingInfos(es + [e]) == MissingInfos(es) + MissingInfo(e)
  {
    assert (es + [e])[..|es|] == es;
  }

  /** A name is in the chained list iff some group declares it. */
  lemma {:induction false} InAllFieldNames(lib: Library, x: string)
    ensures x in AllFieldNames(lib) <==> exists i :: 0 <= i < |lib| && x in FieldNames(lib[i])
    decreases |lib|
  {
    if lib != [] {
      var init, last := lib[..|lib| - 1], lib[|lib| - 1];
      InAllFieldNames(init, x);
      if x in AllFieldNames(init) {
        var i :| 0 <= i < |init| && x in FieldNames(init[i]);
        assert x in FieldNames(lib[i]);
      }
      if exists i :: 0 <= i < |lib| && x in FieldNames(lib[i]) {
        var i :| 0 <= i < |lib| && x in FieldNames(lib[i]);
        if i < |lib| - 1 {
          assert x in FieldNames(init[i]);
        }
      }
    }
  }

  /** Counting over the chained list adds one per group that declares the name. */
  lemma CountSnoc(lib: Library, x: string)
    requires lib != [] && WellFormed(lib)
    ensures Count(AllFieldNames(lib), x)
      == Count(AllFieldNames(lib[..|lib| - 1]), x) + (if x in FieldNames(lib[|lib| - 1]) then 1 else 0)
  {
    CountAppend(AllFieldNames(lib[..|lib| - 1]), FieldNames(lib[|lib| - 1]), x);
    CountFieldNames(lib[|lib| - 1], x);
  }

  /** A shared name of a prefix is a shared name of the library. */
  lemma SharedNamePrefix(lib: Library, x: string)
    requires lib != [] && SharedName(lib[..|lib| - 1], x)
    ensures SharedName(lib, x)
  {
    var init := lib[..|lib| - 1];
    var i, j :| 0 <= i < j < |init| && x in FieldNames(init[i]) && x in FieldNames(init[j]);
    assert x in FieldNames(lib[i]) && x in FieldNames(lib[j]);
  }

  /** A name is shared by a library iff it is shared before the last group, or the
      last group declares it and an earlier one does too. */
  lemma SharedNameSnoc(lib: Library, x: string)
    requires lib != []
    ensures SharedName(lib, x)
      <==> SharedName(lib[..|lib| - 1], x)
           || (x in FieldNames(lib[|lib| - 1]) && x in AllFieldNames(lib[..|lib| - 1]))
  {
    var init := lib[..|lib| - 1];
    InAllFieldNames(init, x);
    if SharedName(lib, x) {
      var i, j :| 0 <= i < j < |lib| && x in FieldNames(lib[i]) && x in FieldNames(lib[j]);
      assert x in FieldNames(init[i]);
      if j < |lib| - 1 {
        assert x in FieldNames(init[j]);
      }
    }
    if SharedName(init, x) {
      SharedNamePrefix(lib, x);
    } else if x in FieldNames(lib[|lib| - 1]) && x in AllFieldNames(init) {
      var i :| 0 <= i < |init| && x in FieldNames(init[i]);
      assert x in FieldNames(lib[i]);
    }
  }

  /** A name is counted at least twice in the chained list iff two groups declare it. */
  lemma {:induction false} CountAllFieldNames(lib: Library, x: string)
    requires WellFormed(lib)
    ensures Count(AllFieldNames(lib), x) >= 2 <==> SharedName(lib, x)
    decreases |lib|
  {
    if lib != [] {
      var init := lib[..|lib| - 1];
      assert WellFormed(init);
      CountAllFieldNames(init, x);
      CountSnoc(lib, x);
      CountPositive(AllFieldNames(init), x);
      SharedNameSnoc(lib, x);
    }
  }

  /** The duplicate error names exactly the field names declared by two or more groups. */
  lemma DuplicatesAreSharedNames(lib: Library, x: string)
    requires WellFormed(lib)
    ensures x in Duplicates(lib) <==> SharedName(lib, x)
  {
    CountAllFieldNames(lib, x);
    CountPositive(AllFieldNames(lib), x);
  }

  /** CHECK_FIELDS records the duplicate error iff some field name occurs in more than one group. */
  lemma DuplicateErrorIff(lib: Library)
    requires WellFormed(lib)
    ensures DuplicateErrors(lib) != [] <==> exists x :: SharedName(lib, x)
    ensures |DuplicateErrors(lib)| <= 1
  {
    if exists x :: SharedName(lib, x) {
      var x :| SharedName(lib, x);
      DuplicatesAreSharedNames(lib, x);
    }
    if Duplicates(lib) != {} {
      var x :| x in Duplicates(lib);
      DuplicatesAreSharedNames(lib, x);
    }
  }

  // ---------------------------------------------------------------- per-field rules

  /** A field draws a consistency error exactly when it is not well defined. */
  lemma ConsistencyErrorIff(e: Located)
    ensures ConsistencyError(e) == [] <==> WellDefined(e.subject)
    ensures |ConsistencyError(e)| <= 1
  {
  }

  /** At most one consistency error per field, none exactly for well-defined fields. */
  lemma {:induction false} ConsistencyErrorsBound(es: seq<Located>)
    ensures |ConsistencyErrors(es)| <= |es|
    ensures ConsistencyErrors(es) == [] <==> forall e :: e in es ==> WellDefined(e.subject)
    decreases |es|
  {
    if es != [] {
      var init := es[..|es| - 1];
      ConsistencyErrorsBound(init);
      ConsistencyErrorIff(es[|es| - 1]);
      assert es == init + [es[|es| - 1]];
    }
  }

  /** Warnings are exactly the missing comments and units, so none iff every field is documented. */
  lemma {:induction false} MissingInfosEmpty(es: seq<Located>)
    ensures MissingInfos(es) == [] <==> forall e :: e in es ==> Documented(e.subject)
    decreases |es|
  {
    if es != [] {
      var init := es[..|es| - 1];
      MissingInfosEmpty(init);
      assert es == init + [es[|es| - 1]];
    }
  }

  // ---------------------------------------------------------------- outcome

  /**
   * CHECK_FIELDS returns normally iff no name is shared by two groups and
   * every field is well defined and has both a comment and a unit.
   */
  lemma CheckPassesIff(lib: Library)
    requires WellFormed(lib)
    ensures Decide(Warnings(lib), Errors(lib)) == Passed
      <==> (forall x :: !SharedName(lib, x))
           && (forall e :: e in Entries(lib) ==> WellDefined(e.subject) && Documented(e.subject))
  {
    DuplicateErrorIff(lib);
    ConsistencyErrorsBound(Entries(lib));
    MissingInfosEmpty(Entries(lib));
  }

  /**
   * A missing comment or unit makes CHECK_FIELDS raise Warning even when
   * errors were also found; ValueError is raised only when every field is
   * documented.
   */
  lemma WarningPrecedence(lib: Library)
    ensures (exists e :: e in Entries(lib) && !Documented(e.subject))
      ==> Decide(Warnings(lib), Errors(lib)) == RaisedWarning(Warnings(lib))
    ensures Decide(Warnings(lib), Errors(lib)).RaisedValueError?
      ==> (forall e :: e in Entries(lib) ==> Documented(e.subject)) && Errors(lib) != []
  {
    MissingInfosEmpty(Entries(lib));
  }
}
