/**
 * String building shared by the sweep drivers: number formatting (kept abstract),
 * Boolean.toString, path joining and underscore-separated names.
 */
module Text {

  /** The number-to-string conversions the drivers use: `Integer.toString` (also `%d`
      and `%s` of an int), `Double.toString` (also `%s` of a double) and `%.1f`. Their
      exact output is the Java library's; only the properties below are used. */
  datatype Show = Show(ofInt: int -> string, ofReal: real -> string, ofFixed1: real -> string)

  /** No printed number contains an underscore or reads as the placeholder "x". */
  ghost predicate PrintsNoUnderscore(show: Show) {
    && (forall a: int :: '_' !in show.ofInt(a))
    && (forall a: real :: '_' !in show.ofReal(a) && show.ofReal(a) != "x")
    && (forall a: real :: '_' !in show.ofFixed1(a))
  }

  /** Distinct integers print differently. */
  ghost predicate InjectiveOnInts(show: Show) {
    forall a: int, b: int :: show.ofInt(a) == show.ofInt(b) ==> a == b
  }

  /** Distinct doubles among `reals` print differently. A double prints as the shortest
      decimal that reads back as it, so this holds for every set of doubles; `%.1f`
      rounds and is not required to be injective. */
  ghost predicate InjectiveOn(show: Show, reals: set<real>) {
    forall a, b | a in reals && b in reals :: show.ofReal(a) == show.ofReal(b) ==> a == b
  }

  ghost predicate WellFormed(show: Show, reals: set<real>) {
    PrintsNoUnderscore(show) && InjectiveOnInts(show) && InjectiveOn(show, reals)
  }

  /** A string of `n` ones. */
  function Ones(n: nat): (s: string)
    ensures |s| == n && forall i | 0 <= i < n :: s[i] == '1'
  {
    seq(n, _ => '1')
  }

  /** An integer in unary with a leading minus sign when negative. */
  function Signed(n: int): (s: string)
    ensures ('-' in s <==> n < 0) && '_' !in s
    ensures |s| == if n < 0 then 1 - n else n
  {
    if n >= 0 then Ones(n) else "-" + Ones(-n)
  }

  /** The elements of a finite set, each once. */
  ghost function Listing(s: set<real>): (xs: seq<real>)
    ensures forall x :: x in xs <==> x in s
    decreases |s|
  {
    if |s| == 0 then []
    else
      assert exists y :: y in s by {
        if forall y :: y !in s { assert false; }
      }
      var x :| x in s;
      [x] + Listing(s - {x})
  }

  /** The first position of `x` in `xs`. */
  function IndexOf(xs: seq<real>, x: real): (i: nat)
    requires x in xs
    ensures i < |xs| && xs[i] == x
  {
    if xs[0] == x then 0 else 1 + IndexOf(xs[1..], x)
  }

  /** A listed real as a run of ones, longer than one and unique to its position. */
  function Positional(xs: seq<real>, r: real): (s: string)
    ensures '_' !in s && s != "x"
    ensures r in xs ==> |s| == IndexOf(xs, r) + 2
  {
    if r in xs then Ones(IndexOf(xs, r) + 2) else ""
  }

  /** The assumptions are consistent: for every finite set of doubles some `Show` meets
      them (integers in signed unary, doubles by their position in a listing). */
  lemma WellFormedIsSatisfiable(reals: set<real>)
    ensures exists show :: WellFormed(show, reals)
  {
    var xs := Listing(reals);
    var show := Show(n => Signed(n), r => Positional(xs, r), _ => "");
    forall a: int, b: int | Signed(a) == Signed(b) ensures a == b {
      assert (a < 0) == (b < 0);
    }
    forall a, b | a in reals && b in reals && Positional(xs, a) == Positional(xs, b) ensures a == b {
      assert IndexOf(xs, a) == IndexOf(xs, b);
    }
    assert WellFormed(show, reals);
  }

  /** `Boolean.toString`. */
  function BoolStr(b: bool): (s: string)
    ensures '_' !in s
  {
    if b then "true" else "false"
  }

  function LowerAscii(c: char): char {
    if 'A' <= c <= 'Z' then (c as int + 32) as char else c
  }

  /** `Boolean.parseBoolean`: "true" in any mix of upper and lower case. */
  function ParseBoolean(s: string): (b: bool)
    ensures b <==> |s| == 4 && forall i | 0 <= i < 4 :: LowerAscii(s[i]) == "true"[i]
  {
    |s| == 4 && LowerAscii(s[0]) == 't' && LowerAscii(s[1]) == 'r' && LowerAscii(s[2]) == 'u'
      && LowerAscii(s[3]) == 'e'
  }

  /** Only spellings of "true" parse as true; an absent option's "false" does not. */
  lemma ParseBooleanExamples()
    ensures ParseBoolean("true") && ParseBoolean("TRUE") && ParseBoolean("True")
    ensures !ParseBoolean("false") && !ParseBoolean("yes") && !ParseBoolean("1") && !ParseBoolean("")
  {
  }

  /** `Path.of(dir, name).toString()` for a relative directory and a plain name. */
  function PathOf(dir: string, name: string): string {
    dir + "/" + name
  }

  /** The vehicles file of a fleet size. */
  function VehiclesFile(fleetSize: int, show: Show): string {
    "drt_vehicles_" + show.ofInt(fleetSize) + ".xml.gz"
  }

  /** Segments joined with underscores. */
  function Join(segments: seq<string>): string {
    if |segments| == 0 then ""
    else if |segments| == 1 then segments[0]
    else segments[0] + "_" + Join(segments[1..])
  }

  predicate NoUnderscore(segments: seq<string>) {
    forall i | 0 <= i < |segments| :: '_' !in segments[i]
  }

  lemma SameSuffix(a: string, b: string, c: string)
    requires a + b == a + c
    ensures b == c
  {
    assert b == (a + b)[|a|..];
    assert c == (a + c)[|a|..];
  }

  lemma SamePrefix(a: string, b: string, c: string)
    requires a + c == b + c
    ensures a == b
  {
    assert a == (a + c)[..|a|];
    assert b == (b + c)[..|b|];
  }

  /** In a head, an underscore and a tail, the first underscore is the one after the head. */
  lemma UnderscoreAt(x: string, rest: string)
    requires '_' !in x
    ensures (x + "_" + rest)[|x|] == '_'
    ensures forall j | 0 <= j < |x| :: (x + "_" + rest)[j] != '_'
  {
    assert forall j | 0 <= j < |x| :: (x + "_" + rest)[j] == x[j];
  }

  /** Splitting at the first underscore: equal strings whose heads contain no
      underscore have equal heads and equal tails. */
  lemma {:induction false} SplitAtUnderscore(x1: string, rest1: string, x2: string, rest2: string)
    requires '_' !in x1 && '_' !in x2
    requires x1 + "_" + rest1 == x2 + "_" + rest2
    ensures x1 == x2 && rest1 == rest2
  {
    var s := x1 + "_" + rest1;
    UnderscoreAt(x1, rest1);
    UnderscoreAt(x2, rest2);
    assert |x1| == |x2|;
    assert x1 == s[..|x1|] == x2;
    assert rest1 == s[|x1| + 1..] == rest2;
  }

  /** Names built from the same number of underscore-free segments are equal only when
      every segment is. */
  lemma {:induction false} JoinInjective(a: seq<string>, b: seq<string>)
    requires |a| == |b| && NoUnderscore(a) && NoUnderscore(b)
    requires Join(a) == Join(b)
    ensures a == b
  {
    if |a| > 1 {
      assert '_' !in a[0] && '_' !in b[0];
      SplitAtUnderscore(a[0], Join(a[1..]), b[0], Join(b[1..]));
      JoinInjective(a[1..], b[1..]);
      assert a == [a[0]] + a[1..];
      assert b == [b[0]] + b[1..];
    }
  }
}
