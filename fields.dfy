/**
 * The data model of the field library: a library is an ordered dictionary of
 * groups, each an ordered dictionary of field names to attribute dictionaries
 * ("subjects"). Attribute values (lambdas, numbers, strings, None) are opaque
 * tokens; only the presence of attribute keys and the text of string values
 * are ever inspected.
 */
module Fields {
  import opened PyText

  /** The outcome of a computation that may raise a Python exception. */
  datatype Result<+T, +E> = Success(value: T) | Failure(error: E) {
    predicate IsFailure() {
      Failure?
    }

    function PropagateFailure<U>(): Result<U, E>
      requires Failure?
    {
      Failure(error)
    }

    function Extract(): T
      requires Success?
    {
      value
    }
  }

  datatype Option<+T> = None | Some(value: T)

  /** An attribute value: a lambda, a number, a string or None. */
  datatype Attr = Func(code: string) | Num(literal: string) | Str(text: string) | NoneV

  /** The attribute dictionary of one field ('value', 'func', 'ode', 'com', 'units', 'symbol', ...). */
  type Subject = map<string, Attr>

  datatype Field = Field(name: string, subject: Subject)

  datatype Group = Group(name: string, fields: seq<Field>)

  /** The library: groups in dictionary order. */
  type Library = seq<Group>

  /** One field together with the group it is declared in. */
  datatype Located = Located(group: string, field: string, subject: Subject)

  /** The Python exceptions the toolkit can raise. */
  datatype PyError =
    | KeyError(key: string)               // subject['units'], subject['value'], _DEFAULTFIELDS[...]
    | BadUnitFormalism(subject: Subject)  // ValueError: more than one space in the units
    | NoSplitAttribute(units: Attr)       // AttributeError: units that are neither None nor a string
    | UnhashableList                      // TypeError: a list used as a dictionary key

  /** What a Python dictionary of dictionaries guarantees about its keys. */
  predicate WellFormed(lib: Library) {
    && (forall i, j :: 0 <= i < j < |lib| ==> lib[i].name != lib[j].name)
    && (forall i :: 0 <= i < |lib| ==> Distinct(FieldNames(lib[i])))
  }

  function FieldNames(g: Group): seq<string> {
    seq(|g.fields|, i requires 0 <= i < |g.fields| => g.fields[i].name)
  }

  /** The fields of one group, each paired with the group's name. */
  function Locate(group: string, fs: seq<Field>): seq<Located>
    decreases |fs|
  {
    if fs == [] then []
    else Locate(group, fs[..|fs| - 1]) + [Located(group, fs[|fs| - 1].name, fs[|fs| - 1].subject)]
  }

  function GroupEntries(g: Group): seq<Located> {
    Locate(g.name, g.fields)
  }

  /** The fields in the order of the nested group/field loops. */
  function Entries(lib: Library): seq<Located>
    decreases |lib|
  {
    if lib == [] then [] else Entries(lib[..|lib| - 1]) + GroupEntries(lib[|lib| - 1])
  }

  /** The chained list of field names of all groups (duplicates kept). */
  function AllFieldNames(lib: Library): seq<string>
    decreases |lib|
  {
    if lib == [] then [] else AllFieldNames(lib[..|lib| - 1]) + FieldNames(lib[|lib| - 1])
  }

  lemma AllFieldNamesSnoc(lib: Library, g: Group)
    ensures AllFieldNames(lib + [g]) == AllFieldNames(lib) + FieldNames(g)
  {
    assert (lib + [g])[..|lib|] == lib;
  }

  lemma EntriesSnoc(lib: Library, g: Group)
    ensures Entries(lib + [g]) == Entries(lib) + GroupEntries(g)
  {
    assert (lib + [g])[..|lib|] == lib;
  }

  /** After the field loop of group g, the fields seen are those of the first g + 1 groups. */
  lemma EntriesStep(lib: Library, g: nat, seen: seq<Located>)
    requires g < |lib|
    requires seen == Entries(lib[..g]) + Locate(lib[g].name, lib[g].fields[..|lib[g].fields|])
    ensures seen == Entries(lib[..g + 1])
  {
    var group := lib[g];
    assert group.fields[..|group.fields|] == group.fields;
    PrefixSnoc(lib, g);
    EntriesSnoc(lib[..g], group);
  }

  lemma AppendAssoc<T>(a: seq<T>, b: seq<T>, c: seq<T>)
    ensures a + b + c == a + (b + c)
  {
  }

  lemma PrefixSnoc<T>(s: seq<T>, i: nat)
    requires i < |s|
    ensures s[..i + 1] == s[..i] + [s[i]]
  {
  }

  /** Before the field loop of a group, none of its fields has been seen. */
  lemma LocateNone(group: Group, done: seq<Located>)
    ensures done == done + Locate(group.name, group.fields[..0])
  {
    assert group.fields[..0] == [];
  }

  /** One more field of a group joins its fields seen so far. */
  lemma LocateSnoc(group: Group, f: nat)
    requires f < |group.fields|
    ensures Locate(group.name, group.fields[..f]) + [Located(group.name, group.fields[f].name, group.fields[f].subject)]
      == Locate(group.name, group.fields[..f + 1])
  {
    assert group.fields[..f + 1][..f] == group.fields[..f];
  }

  /** One more field of a group joins the fields seen so far. */
  lemma LocateStep(group: Group, f: nat, done: seq<Located>, seen: seq<Located>)
    requires f < |group.fields|
    requires seen == done + Locate(group.name, group.fields[..f])
    ensures seen + [Located(group.name, group.fields[f].name, group.fields[f].subject)]
      == done + Locate(group.name, group.fields[..f + 1])
  {
    var fs := group.fields;
    LocateSnoc(group, f);
    AppendAssoc(done, Locate(group.name, fs[..f]), [Located(group.name, fs[f].name, fs[f].subject)]);
  }

  lemma {:induction false} LocatePrefix(group: string, fs: seq<Field>, k: nat)
    requires k <= |fs|
    ensures Locate(group, fs[..k]) <= Locate(group, fs)
    decreases |fs|
  {
    if k < |fs| {
      var init := fs[..|fs| - 1];
      assert init[..k] == fs[..k];
      LocatePrefix(group, init, k);
    } else {
      assert fs[..k] == fs;
    }
  }

  lemma {:induction false} EntriesPrefix(lib: Library, g: nat)
    requires g <= |lib|
    ensures Entries(lib[..g]) <= Entries(lib)
    decreases |lib|
  {
    if g < |lib| {
      var init := lib[..|lib| - 1];
      assert init[..g] == lib[..g];
      EntriesPrefix(init, g);
    } else {
      assert lib[..g] == lib;
    }
  }

  /** The fields seen up to and including field f of group g come first in the traversal. */
  lemma SeenPrefix(lib: Library, g: nat, f: nat)
    requires g < |lib| && f <= |lib[g].fields|
    ensures Entries(lib[..g]) + Locate(lib[g].name, lib[g].fields[..f]) <= Entries(lib)
  {
    var a, p, q := Entries(lib[..g]), Locate(lib[g].name, lib[g].fields[..f]), GroupEntries(lib[g]);
    LocatePrefix(lib[g].name, lib[g].fields, f);
    PrefixSnoc(lib, g);
    EntriesSnoc(lib[..g], lib[g]);
    EntriesPrefix(lib, g + 1);
    assert a + p == (a + q)[..|a + p|];
  }

  /** Every traversed entry is some field of some group, paired with that group's name. */
  lemma {:induction false} InEntries(lib: Library, e: Located)
    requires e in Entries(lib)
    ensures exists i, k :: (&& 0 <= i < |lib| && 0 <= k < |lib[i].fields|
                            && e == Located(lib[i].name, lib[i].fields[k].name, lib[i].fields[k].subject))
    decreases |lib|
  {
    var init, last := lib[..|lib| - 1], lib[|lib| - 1];
    if e in Entries(init) {
      InEntries(init, e);
      var i, k :| 0 <= i < |init| && 0 <= k < |init[i].fields|
        && e == Located(init[i].name, init[i].fields[k].name, init[i].fields[k].subject);
      assert lib[i] == init[i];
    } else {
      InLocate(last.name, last.fields, e);
      var k :| 0 <= k < |last.fields| && e == Located(last.name, last.fields[k].name, last.fields[k].subject);
      assert lib[|lib| - 1] == last;
    }
  }

  lemma {:induction false} InLocate(group: string, fs: seq<Field>, e: Located)
    requires e in Locate(group, fs)
    ensures exists k :: 0 <= k < |fs| && e == Located(group, fs[k].name, fs[k].subject)
    decreases |fs|
  {
    var init := fs[..|fs| - 1];
    if e in Locate(group, init) {
      InLocate(group, init, e);
      var k :| 0 <= k < |init| && e == Located(group, init[k].name, init[k].subject);
      assert fs[k] == init[k];
    }
  }
}
