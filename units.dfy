/**
 * Units parsing: detectdimension turns a units string such as
 * 'Units.Humans^{-1}.years^{-1}' into a dictionary holding a 'Multiplier'
 * and one entry per unit with its exponent; detectype classifies that
 * dictionary.
 */
module Units {
  import opened Fields
  import opened PyText

  /** A value of the dimension dictionary: the integer 1 or a piece of text. */
  datatype DimValue = One | Text(text: string)

  type Dims = map<string, DimValue>

  const Multiplier: string := "Multiplier"

  /** The key the type filter actually tests (misspelt in the source). */
  const FilteredKey: string := "Muliplier"

  /** The unit names the source lists as extensive. */
  const ExtensiveUnits: set<string> := {"y", "humans", "Units", "Dollars"}

  /**
   * What detectype can return: 'dimensionless', 'Intensive' or None.
   * Its 'Extensive' return is never reached: the test guarding it indexes the
   * dimension dictionary with a list and raises first.
   */
  datatype TypeTag = Dimensionless | Intensive | Untyped

  predicate EndsWithBrace(p: string) {
    |p| > 0 && p[|p| - 1] == '}'
  }

  /** The key one '.'-separated piece writes: lower-cased text before '^', or the piece itself. */
  function PieceKey(p: string): string {
    if EndsWithBrace(p) then Lower(PySlice(p, 0, Find(p, '^'))) else p
  }

  /** The value one piece writes: the text between '{' and the final '}', or 1. */
  function PieceValue(p: string): DimValue {
    if EndsWithBrace(p) then Text(PySlice(p, Find(p, '{') + 1, -1)) else One
  }

  /** The dictionary after writing the pieces in order, later writes overwriting earlier ones. */
  function Absorb(m: Dims, ps: seq<string>): Dims
    decreases |ps|
  {
    if ps == [] then m
    else Absorb(m, ps[..|ps| - 1])[PieceKey(ps[|ps| - 1]) := PieceValue(ps[|ps| - 1])]
  }

  /** The unit block: the last space-separated token (the second of two, or the only one). */
  function UnitBlock(tokens: seq<string>): string
    requires |tokens| >= 1
  {
    tokens[|tokens| - 1]
  }

  /** The result of detectdimension on a subject. */
  function DimensionsOf(subject: Subject): Result<Dims, PyError> {
    if "units" !in subject then Failure(KeyError("units"))
    else match subject["units"]
      case NoneV => Success(map[Multiplier := One])
      case Str(u) =>
        var infos := Split(u, ' ');
        if |infos| == 2 then Success(Absorb(map[Multiplier := Text(infos[0])], Split(infos[1], '.')))
        else if |infos| == 1 then Success(Absorb(map[Multiplier := One], Split(infos[0], '.')))
        else Failure(BadUnitFormalism(subject))
      case _ => Failure(NoSplitAttribute(subject["units"]))
  }

  /** detectdimension: fills the dimension dictionary piece by piece. */
  method DetectDimension(subject: Subject) returns (r: Result<Dims, PyError>)
    ensures r == DimensionsOf(subject)
  {
    var dimensions: Dims := map[];
    if "units" !in subject {
      return Failure(KeyError("units"));
    }
    var infos := subject["units"];
    if infos == NoneV {
      dimensions := dimensions[Multiplier := One];
    } else if infos.Str? {
      var tokens := Split(infos.text, ' ');
      var unitblock: string;
      if |tokens| == 2 {
        dimensions := dimensions[Multiplier := Text(tokens[0])];
        unitblock := tokens[1];
      } else if |tokens| == 1 {
        dimensions := dimensions[Multiplier := One];
        unitblock := tokens[0];
      } else {
        return Failure(BadUnitFormalism(subject));
      }
      var pieces := Split(unitblock, '.');
      ghost var start := dimensions;
      var i := 0;
      while i < |pieces|
        invariant 0 <= i <= |pieces|
        invariant dimensions == Absorb(start, pieces[..i])
      {
        var units := pieces[i];
        AbsorbSnoc(start, pieces, i);
        if EndsWithBrace(units) {
          var charplace := Find(units, '{');
          var exponent := PySlice(units, charplace + 1, -1);
          var charplace2 := Find(units, '^');
          var dim := Lower(PySlice(units, 0, charplace2));
          dimensions := dimensions[dim := Text(exponent)];
        } else {
          dimensions := dimensions[units := One];
        }
        i := i + 1;
      }
      assert pieces[..|pieces|] == pieces;
    } else {
      return Failure(NoSplitAttribute(infos));
    }
    return Success(dimensions);
  }

  /** detectype on an already parsed dimension dictionary. */
  function Classify(dims: Dims): (r: Result<TypeTag, PyError>)
    ensures r.Failure? ==> r.error == UnhashableList
    ensures r == Success(Dimensionless) <==> dims.Keys <= {FilteredKey}
    ensures r == Success(Intensive) <==> |dims.Keys - {FilteredKey}| >= 2
    ensures |dims.Keys - {FilteredKey}| == 1 ==> (r.Failure? <==> (dims.Keys - {FilteredKey}) * ExtensiveUnits != {})
  {
    var dimlist := dims.Keys - {FilteredKey};
    if |dimlist| == 0 then Success(Dimensionless)
    else if |dimlist| == 1 then
      // dims[dimlist] is evaluated only when the single key is a listed unit
      if dimlist * ExtensiveUnits != {} then Failure(UnhashableList) else Success(Untyped)
    else Success(Intensive)
  }

  /** detectype: parses the units again and classifies the result. */
  function DetectType(subject: Subject): Result<TypeTag, PyError> {
    var dims :- DimensionsOf(subject);
    Classify(dims)
  }

  // ---------------------------------------------------------------- pieces

  /** A brace piece writes the text after the first '{' up to the final '}'. */
  lemma PieceValueShape(p: string)
    requires EndsWithBrace(p)
    ensures Find(p, '{') + 1 <= |p| - 1
    ensures PieceValue(p) == Text(p[Find(p, '{') + 1 .. |p| - 1])
  {
    var k := Find(p, '{');
    assert k != |p| - 1;
    SliceDropLast(p, k + 1);
  }

  /** A brace piece writes under the lower-cased text before the first '^', or all
      but the final '}' when there is none. */
  lemma PieceKeyShape(p: string)
    requires EndsWithBrace(p)
    ensures PieceKey(p) == Lower(if Find(p, '^') >= 0 then p[..Find(p, '^')] else p[..|p| - 1])
  {
    var j := Find(p, '^');
    if j >= 0 {
      assert j != |p| - 1;
      SliceWithin(p, 0, j);
    } else {
      SliceDropLast(p, 0);
    }
  }

  /** Only the verbatim piece 'Multiplier' can overwrite the multiplier: lower-casing removes 'M'. */
  lemma PieceKeyMultiplier(p: string)
    ensures PieceKey(p) == Multiplier <==> p == Multiplier
  {
    if EndsWithBrace(p) {
      assert IsUpper(Multiplier[0]);
      assert p != Multiplier by { assert Multiplier[|Multiplier| - 1] == 'r'; }
    }
  }

  // ---------------------------------------------------------------- the fold

  /** One more piece: its key is written with its value. */
  lemma AbsorbSnoc(m: Dims, ps: seq<string>, i: nat)
    requires i < |ps|
    ensures Absorb(m, ps[..i + 1]) == Absorb(m, ps[..i])[PieceKey(ps[i]) := PieceValue(ps[i])]
  {
    assert ps[..i + 1][..i] == ps[..i];
  }

  lemma {:induction false} AbsorbKeys(m: Dims, ps: seq<string>)
    ensures Absorb(m, ps).Keys == m.Keys + (set p | p in ps :: PieceKey(p))
    decreases |ps|
  {
    if ps != [] {
      var init := ps[..|ps| - 1];
      AbsorbKeys(m, init);
      KeySetSnoc(ps);
    }
  }

  /** The keys written by the pieces: those of all but the last, plus the last one's. */
  lemma KeySetSnoc(ps: seq<string>)
    requires ps != []
    ensures (set p | p in ps :: PieceKey(p))
      == (set p | p in ps[..|ps| - 1] :: PieceKey(p)) + {PieceKey(ps[|ps| - 1])}
  {
    assert ps == ps[..|ps| - 1] + [ps[|ps| - 1]];
  }

  /** Keys that no piece writes keep their value. */
  lemma {:induction false} AbsorbUntouched(m: Dims, ps: seq<string>, k: string)
    requires forall j :: 0 <= j < |ps| ==> PieceKey(ps[j]) != k
    ensures k in Absorb(m, ps) <==> k in m
    ensures k in m ==> Absorb(m, ps)[k] == m[k]
    decreases |ps|
  {
    if ps != [] {
      AbsorbUntouched(m, ps[..|ps| - 1], k);
    }
  }

  /** The last piece writing a key decides its value. */
  lemma {:induction false} AbsorbLastWins(m: Dims, ps: seq<string>, i: nat)
    requires i < |ps|
    requires forall j :: i < j < |ps| ==> PieceKey(ps[j]) != PieceKey(ps[i])
    ensures PieceKey(ps[i]) in Absorb(m, ps)
    ensures Absorb(m, ps)[PieceKey(ps[i])] == PieceValue(ps[i])
    decreases |ps|
  {
    if i < |ps| - 1 {
      AbsorbLastWins(m, ps[..|ps| - 1], i);
    }
  }

  // ---------------------------------------------------------------- detectdimension

  /** Units None give exactly {'Multiplier': 1}; every successful parse holds 'Multiplier'. */
  lemma DimensionsHaveMultiplier(subject: Subject)
    ensures "units" in subject && subject["units"] == NoneV ==> DimensionsOf(subject) == Success(map[Multiplier := One])
    ensures DimensionsOf(subject).Success? ==> Multiplier in DimensionsOf(subject).value
    ensures "units" !in subject ==> DimensionsOf(subject) == Failure(KeyError("units"))
  {
    if "units" in subject && subject["units"].Str? {
      var infos := Split(subject["units"].text, ' ');
      if |infos| == 1 || |infos| == 2 {
        var m: Dims := map[Multiplier := if |infos| == 2 then Text(infos[0]) else One];
        AbsorbKeys(m, Split(UnitBlock(infos), '.'));
      }
    }
  }

  /** A units string parses exactly when it holds at most one space; otherwise ValueError. */
  lemma DimensionsTokenCount(subject: Subject, u: string)
    requires "units" in subject && subject["units"] == Str(u)
    ensures DimensionsOf(subject).Failure? <==> Count(u, ' ') >= 2
    ensures DimensionsOf(subject).Failure? ==> DimensionsOf(subject).error == BadUnitFormalism(subject)
  {
  }

  /**
   * The unit block is the last space-separated token; the keys are
   * 'Multiplier' plus one per '.'-separated piece of the block.
   */
  lemma DimensionsKeys(subject: Subject, u: string)
    requires "units" in subject && subject["units"] == Str(u)
    requires Count(u, ' ') <= 1
    ensures DimensionsOf(subject).Success?
    ensures DimensionsOf(subject).value.Keys
      == {Multiplier} + (set p | p in Split(UnitBlock(Split(u, ' ')), '.') :: PieceKey(p))
  {
    var tokens := Split(u, ' ');
    var pieces := Split(UnitBlock(tokens), '.');
    var m: Dims := map[Multiplier := if |tokens| == 2 then Text(tokens[0]) else One];
    assert DimensionsOf(subject) == Success(Absorb(m, pieces));
    AbsorbKeys(m, pieces);
  }

  /**
   * The multiplier is the first of two tokens, kept as text, or 1 for a single
   * token, unless a verbatim 'Multiplier' piece overwrites it with 1.
   */
  lemma DimensionsMultiplier(subject: Subject, u: string)
    requires "units" in subject && subject["units"] == Str(u)
    requires Count(u, ' ') <= 1
    ensures DimensionsOf(subject).Success? && Multiplier in DimensionsOf(subject).value
    ensures var tokens := Split(u, ' ');
      DimensionsOf(subject).value[Multiplier]
        == if Multiplier in Split(UnitBlock(tokens), '.') || |tokens| == 1 then One else Text(tokens[0])
  {
    var tokens := Split(u, ' ');
    var pieces := Split(UnitBlock(tokens), '.');
    var v := if |tokens| == 2 then Text(tokens[0]) else One;
    var m: Dims := map[Multiplier := v];
    assert DimensionsOf(subject) == Success(Absorb(m, pieces));
    AbsorbMultiplier(v, pieces);
  }

  /** Starting from a multiplier v, the multiplier survives unless a verbatim 'Multiplier' piece resets it to 1. */
  lemma AbsorbMultiplier(v: DimValue, pieces: seq<string>)
    ensures Multiplier in Absorb(map[Multiplier := v], pieces)
    ensures Absorb(map[Multiplier := v], pieces)[Multiplier] == if Multiplier in pieces then One else v
  {
    var m: Dims := map[Multiplier := v];
    if Multiplier in pieces {
      var i :| 0 <= i < |pieces| && pieces[i] == Multiplier;
      LastWriter(pieces, i);
      var l :| i <= l < |pieces| && PieceKey(pieces[l]) == PieceKey(pieces[i])
        && (forall j :: l < j < |pieces| ==> PieceKey(pieces[j]) != PieceKey(pieces[l]));
      PieceKeyMultiplier(pieces[i]);
      PieceKeyMultiplier(pieces[l]);
      AbsorbLastWins(m, pieces, l);
    } else {
      forall j | 0 <= j < |pieces| ensures PieceKey(pieces[j]) != Multiplier {
        PieceKeyMultiplier(pieces[j]);
      }
      AbsorbUntouched(m, pieces, Multiplier);
    }
  }

  /** Every written piece has a last writer among the pieces from it on. */
  lemma LastWriter(ps: seq<string>, i: nat)
    requires i < |ps|
    ensures exists l :: (i <= l < |ps| && PieceKey(ps[l]) == PieceKey(ps[i])
                         && (forall j :: l < j < |ps| ==> PieceKey(ps[j]) != PieceKey(ps[l])))
    decreases |ps| - i
  {
    if exists j :: i < j < |ps| && PieceKey(ps[j]) == PieceKey(ps[i]) {
      var j :| i < j < |ps| && PieceKey(ps[j]) == PieceKey(ps[i]);
      LastWriter(ps, j);
    } else {
      assert PieceKey(ps[i]) == PieceKey(ps[i]);
    }
  }

  /** Within the unit block, the last piece with a given key decides its value. */
  lemma DimensionsLastWins(subject: Subject, u: string, i: nat)
    requires "units" in subject && subject["units"] == Str(u)
    requires Count(u, ' ') <= 1
    requires i < |Split(UnitBlock(Split(u, ' ')), '.')|
    requires var pieces := Split(UnitBlock(Split(u, ' ')), '.');
      forall j :: i < j < |pieces| ==> PieceKey(pieces[j]) != PieceKey(pieces[i])
    ensures var pieces := Split(UnitBlock(Split(u, ' ')), '.');
      && DimensionsOf(subject).Success?
      && PieceKey(pieces[i]) in DimensionsOf(subject).value
      && DimensionsOf(subject).value[PieceKey(pieces[i])] == PieceValue(pieces[i])
  {
    var tokens := Split(u, ' ');
    var m: Dims := map[Multiplier := if |tokens| == 2 then Text(tokens[0]) else One];
    AbsorbLastWins(m, Split(UnitBlock(tokens), '.'), i);
  }

  // ---------------------------------------------------------------- detectype

  /**
   * On a dictionary holding 'Multiplier' the type is never 'dimensionless'
   * (the filter drops 'Muliplier', not 'Multiplier') and never an error:
   * 'Intensive' when at least two keys other than 'Muliplier' remain, None
   * otherwise.
   */
  lemma ClassifyParsed(dims: Dims)
    requires Multiplier in dims
    ensures Classify(dims) == Success(if |dims.Keys - {FilteredKey}| >= 2 then Intensive else Untyped)
  {
    var dimlist := dims.Keys - {FilteredKey};
    assert Multiplier in dimlist;
    if |dimlist| == 1 {
      assert |dimlist - {Multiplier}| == 0;
      assert dimlist == {Multiplier};
      assert dimlist * ExtensiveUnits == {};
    }
  }

  /** detectype fails exactly when detectdimension does, and never answers 'dimensionless'. */
  lemma DetectTypeFacts(subject: Subject)
    ensures DetectType(subject).Failure? <==> DimensionsOf(subject).Failure?
    ensures DetectType(subject).Success? ==> DetectType(subject).value != Dimensionless
    ensures DetectType(subject).Success? ==>
      (DetectType(subject).value == Intensive <==> |DimensionsOf(subject).value.Keys - {FilteredKey}| >= 2)
    ensures "units" in subject && subject["units"] == NoneV ==> DetectType(subject) == Success(Untyped)
  {
    DimensionsHaveMultiplier(subject);
    if DimensionsOf(subject).Success? {
      ClassifyParsed(DimensionsOf(subject).value);
    }
  }

  /** detectype raises exactly the exception detectdimension raises. */
  lemma DetectTypeError(subject: Subject)
    ensures DetectType(subject).Failure? <==> DimensionsOf(subject).Failure?
    ensures DetectType(subject).Failure? ==> DetectType(subject).error == DimensionsOf(subject).error
  {
    if DimensionsOf(subject).Success? {
      DimensionsHaveMultiplier(subject);
      ClassifyParsed(DimensionsOf(subject).value);
    }
  }
}
