/**
 * The Python string and list built-ins the toolkit relies on: list.count,
 * str.split with a one-character separator, str.join, str.find, slicing with
 * negative indices and str.lower.
 */
module PyText {

  /** list.count / str.count of a single element. */
  function Count<T(==)>(s: seq<T>, x: T): (r: nat)
    ensures r <= |s|
    decreases |s|
  {
    if s == [] then 0 else (if s[0] == x then 1 else 0) + Count(s[1..], x)
  }

  lemma {:induction false} CountAppend<T>(a: seq<T>, b: seq<T>, x: T)
    ensures Count(a + b, x) == Count(a, x) + Count(b, x)
    decreases |a|
  {
    if a == [] {
      assert a + b == b;
    } else {
      assert (a + b)[1..] == a[1..] + b;
      CountAppend(a[1..], b, x);
    }
  }

  /** An element occurs in a sequence exactly when it is counted at least once. */
  lemma {:induction false} CountPositive<T>(s: seq<T>, x: T)
    ensures Count(s, x) > 0 <==> x in s
    decreases |s|
  {
    if s != [] {
      CountPositive(s[1..], x);
      assert x in s <==> s[0] == x || x in s[1..];
    }
  }

  /** A sequence without repetition, such as the keys of a dictionary. */
  predicate Distinct<T(==)>(s: seq<T>) {
    forall i, j :: 0 <= i < j < |s| ==> s[i] != s[j]
  }

  lemma DistinctConcat<T>(a: seq<T>, b: seq<T>)
    requires Distinct(a) && Distinct(b)
    requires forall x :: x in a ==> x !in b
    ensures Distinct(a + b)
  {
    forall i, j | 0 <= i < j < |a + b| ensures (a + b)[i] != (a + b)[j] {
      if j >= |a| && i < |a| {
        assert (a + b)[i] in a && (a + b)[j] in b;
      }
    }
  }

  /** In a sequence without repetitions every element is counted at most once. */
  lemma {:induction false} CountDistinct<T>(s: seq<T>, x: T)
    requires Distinct(s)
    ensures Count(s, x) == if x in s then 1 else 0
    decreases |s|
  {
    if s != [] {
      CountDistinct(s[1..], x);
      assert s[0] !in s[1..] by {
        forall k | 0 <= k < |s[1..]| ensures s[1..][k] != s[0] {
          assert s[1..][k] == s[k + 1];
        }
      }
      assert x in s <==> s[0] == x || x in s[1..];
    }
  }

  /**
   * str.split(sep) for a one-character separator: every separator cuts, so
   * adjacent separators give empty pieces and the result is never empty.
   */
  function Split(s: string, sep: char): (r: seq<string>)
    ensures |r| == Count(s, sep) + 1
    ensures forall p :: p in r ==> sep !in p
    decreases |s|
  {
    if s == [] then [""]
    else if s[0] == sep then [""] + Split(s[1..], sep)
    else
      var rest := Split(s[1..], sep);
      assert rest[0] in rest;
      [[s[0]] + rest[0]] + rest[1..]
  }

  /** sep.join(ps) */
  function Join(ps: seq<string>, sep: char): string
    decreases |ps|
  {
    if |ps| == 0 then "" else if |ps| == 1 then ps[0] else ps[0] + [sep] + Join(ps[1..], sep)
  }

  lemma JoinCons(c: char, ps: seq<string>, sep: char)
    requires |ps| >= 1
    ensures Join([[c] + ps[0]] + ps[1..], sep) == [c] + Join(ps, sep)
  {
    var qs := [[c] + ps[0]] + ps[1..];
    assert qs[1..] == ps[1..];
  }

  /** Joining the pieces again gives back the split string. */
  lemma {:induction false} JoinSplit(s: string, sep: char)
    ensures Join(Split(s, sep), sep) == s
    decreases |s|
  {
    if s == [] {
    } else if s[0] == sep {
      JoinSplit(s[1..], sep);
      var rest := Split(s[1..], sep);
      assert ([""] + rest)[1..] == rest;
      assert s == [sep] + s[1..];
    } else {
      JoinSplit(s[1..], sep);
      JoinCons(s[0], Split(s[1..], sep), sep);
      assert s == [s[0]] + s[1..];
    }
  }

  /** A leading non-separator character joins the first piece. */
  lemma SplitCons(c: char, u: string, sep: char)
    requires c != sep
    ensures Split([c] + u, sep) == [[c] + Split(u, sep)[0]] + Split(u, sep)[1..]
  {
    assert ([c] + u)[1..] == u;
  }

  /** A separator-free prefix joins the first piece. */
  lemma {:induction false} SplitPrefix(p: string, t: string, sep: char)
    requires sep !in p
    ensures Split(p + t, sep) == [p + Split(t, sep)[0]] + Split(t, sep)[1..]
    decreases |p|
  {
    var r := Split(t, sep);
    if p != [] {
      var u := p[1..] + t;
      assert p + t == [p[0]] + u;
      assert p[0] in p;
      SplitCons(p[0], u, sep);
      SplitPrefix(p[1..], t, sep);
      assert [p[0]] + (p[1..] + r[0]) == p + r[0];
    } else {
      assert p + t == t;
      assert r == [r[0]] + r[1..];
      assert p + r[0] == r[0];
    }
  }

  /** Splitting a join of separator-free pieces gives back the pieces. */
  lemma {:induction false} SplitJoin(ps: seq<string>, sep: char)
    requires |ps| >= 1
    requires forall p :: p in ps ==> sep !in p
    ensures Split(Join(ps, sep), sep) == ps
    decreases |ps|
  {
    if |ps| == 1 {
      SplitPrefix(ps[0], "", sep);
      assert ps[0] + "" == ps[0];
    } else {
      assert ps[0] in ps;
      var rest := ps[1..];
      assert forall p :: p in rest ==> p in ps;
      SplitJoin(rest, sep);
      var t := [sep] + Join(rest, sep);
      SplitPrefix(ps[0], t, sep);
      assert t[1..] == Join(rest, sep);
      assert Split(t, sep) == [""] + rest;
      assert ps[0] + t == ps[0] + [sep] + Join(rest, sep);
      assert ps[0] + "" == ps[0];
      assert ps == [ps[0]] + rest;
    }
  }

  /** str.find of one character: the first index holding it, or -1. */
  function Find(s: string, c: char): (r: int)
    ensures -1 <= r < |s|
    ensures r >= 0 ==> s[r] == c && c !in s[..r]
    ensures r == -1 <==> c !in s
    decreases |s|
  {
    if s == [] then -1
    else if s[0] == c then 0
    else
      var k := Find(s[1..], c);
      assert s == [s[0]] + s[1..];
      if k < 0 then -1
      else
        assert s[..k + 1] == [s[0]] + s[1..][..k];
        k + 1
  }

  /** Python's normalisation of one slice bound. */
  function SliceBound(len: nat, i: int): (b: nat)
    ensures b <= len
  {
    if i < 0 then (if i + len < 0 then 0 else i + len) else if i > len then len else i
  }

  /** s[start:stop] with Python's meaning of negative and out-of-range bounds. */
  function PySlice(s: string, start: int, stop: int): string {
    var a := SliceBound(|s|, start);
    var b := SliceBound(|s|, stop);
    if a >= b then "" else s[a..b]
  }

  /** A slice is the run of characters from the clamped start, as long as the clamped stop allows. */
  lemma SliceShape(s: string, start: int, stop: int)
    ensures PySlice(s, start, stop) <= s[SliceBound(|s|, start)..]
    ensures |PySlice(s, start, stop)| == if SliceBound(|s|, start) < SliceBound(|s|, stop)
                                         then SliceBound(|s|, stop) - SliceBound(|s|, start) else 0
  {
  }

  /** Bounds already inside the string slice as written. */
  lemma SliceWithin(s: string, a: nat, b: nat)
    requires a <= b <= |s|
    ensures PySlice(s, a, b) == s[a..b]
  {
  }

  /** A stop of -1 drops the last character. */
  lemma SliceDropLast(s: string, a: nat)
    requires a <= |s| - 1
    ensures PySlice(s, a, -1) == s[a..|s| - 1]
  {
    assert SliceBound(|s|, -1) == |s| - 1;
  }

  predicate IsUpper(c: char) {
    'A' <= c <= 'Z'
  }

  function LowerChar(c: char): char {
    if IsUpper(c) then (c as int + 32) as char else c
  }

  /** str.lower, restricted to the ASCII letters. */
  function Lower(s: string): (r: string)
    ensures |r| == |s|
    ensures forall i :: 0 <= i < |r| ==> !IsUpper(r[i])
    ensures forall i :: 0 <= i < |r| ==> (r[i] == s[i] || IsUpper(s[i]))
    ensures forall i :: 0 <= i < |s| && IsUpper(s[i]) ==> r[i] as int == s[i] as int + 32
    decreases |s|
  {
    if s == [] then [] else [LowerChar(s[0])] + Lower(s[1..])
  }
}
