/**
 * Text made of units: units written with a '.' between each two
 * neighbours, the split that reads them back, and the line break that ends
 * every output.
 */
module Units {

  const Separator: char := '.'
  const LineBreak: char := '\n'

  /** f applied to every element, in order. */
  function MapSeq<A, B>(f: A -> B, xs: seq<A>): (ys: seq<B>)
    ensures |ys| == |xs|
    ensures forall i :: 0 <= i < |xs| ==> ys[i] == f(xs[i])
  {
    if xs == [] then [] else [f(xs[0])] + MapSeq(f, xs[1..])
  }

  lemma MapSeqCons<A, B>(f: A -> B, x: A, xs: seq<A>)
    ensures MapSeq(f, [x] + xs) == [f(x)] + MapSeq(f, xs)
  {
    assert ([x] + xs)[1..] == xs;
  }

  /** How many times c occurs in s. */
  function Count(s: string, c: char): nat {
    multiset(s)[c]
  }

  /** No unit contains c. */
  predicate Avoids(units: seq<string>, c: char) {
    forall i :: 0 <= i < |units| ==> c !in units[i]
  }

  /** The units in order, a separator between each two, none before the first or after the last. */
  function Join(units: seq<string>): string {
    if |units| == 0 then ""
    else if |units| == 1 then units[0]
    else units[0] + [Separator] + Join(units[1..])
  }

  /** The pieces of s between separators, in order. */
  function Split(s: string): (parts: seq<string>)
    ensures |parts| >= 1
  {
    if s == [] then [""]
    else
      var rest := Split(s[1..]);
      if s[0] == Separator then [""] + rest else [[s[0]] + rest[0]] + rest[1..]
  }

  lemma JoinCons(u: string, rest: seq<string>)
    requires |rest| >= 1
    ensures Join([u] + rest) == u + [Separator] + Join(rest)
  {
    assert ([u] + rest)[1..] == rest;
  }

  /**
   * Regrouping a separator written after a unit: kept apart so that the
   * proofs appending one unit at a time need not rediscover associativity
   * among their other facts.
   */
  lemma AppendSeparated(written: string, u: string, rest: string)
    ensures written + u + [Separator] + rest == written + (u + ([Separator] + rest))
  {
  }

  /** A prefix without separators joins the first piece of what follows. */
  lemma {:induction false} SplitPrefix(u: string, s: string)
    requires Separator !in u
    ensures Split(u + s) == [u + Split(s)[0]] + Split(s)[1..]
    decreases |u|
  {
    if u == [] {
      assert u + s == s;
      assert u + Split(s)[0] == Split(s)[0];
      assert [Split(s)[0]] + Split(s)[1..] == Split(s);
    } else {
      assert (u + s)[1..] == u[1..] + s;
      SplitPrefix(u[1..], s);
      assert [u[0]] + (u[1..] + Split(s)[0]) == u + Split(s)[0];
    }
  }

  /** Splitting joined units gives the units back, when none of them holds a separator. */
  lemma {:induction false} SplitJoin(units: seq<string>)
    requires |units| >= 1
    requires Avoids(units, Separator)
    ensures Split(Join(units)) == units
    decreases |units|
  {
    if |units| == 1 {
      SplitPrefix(units[0], "");
      assert units[0] + "" == units[0];
    } else {
      var tail := [Separator] + Join(units[1..]);
      SplitJoin(units[1..]);
      assert tail[1..] == Join(units[1..]);
      assert Split(tail) == [""] + units[1..];
      SplitPrefix(units[0], tail);
      assert units[0] + Split(tail)[0] == units[0];
      assert Split(tail)[1..] == units[1..];
      assert units[0] + tail == Join(units);
      assert units == [units[0]] + units[1..];
    }
  }

  /** n units without separators are joined by exactly n - 1 separators. */
  lemma {:induction false} JoinSeparators(units: seq<string>)
    requires |units| >= 1
    requires Avoids(units, Separator)
    ensures Count(Join(units), Separator) == |units| - 1
    decreases |units|
  {
    assert multiset(units[0])[Separator] == 0;
    if |units| > 1 {
      JoinSeparators(units[1..]);
    }
  }

  /** A character other than the separator occurs in joined units only if it occurs in a unit. */
  lemma {:induction false} JoinAvoids(units: seq<string>, c: char)
    requires c != Separator
    requires Avoids(units, c)
    ensures c !in Join(units)
    decreases |units|
  {
    if |units| > 1 {
      JoinAvoids(units[1..], c);
      assert Join(units) == units[0] + ([Separator] + Join(units[1..]));
    }
  }

  /** Joined units begin with the first unit and end with the last. */
  lemma {:induction false} JoinEnds(units: seq<string>)
    requires |units| >= 1
    ensures units[0] <= Join(units)
    ensures |units[|units| - 1]| <= |Join(units)|
    ensures Join(units)[|Join(units)| - |units[|units| - 1]|..] == units[|units| - 1]
    decreases |units|
  {
    if |units| > 1 {
      var rest := Join(units[1..]);
      JoinEnds(units[1..]);
      var j := Join(units);
      assert j == (units[0] + [Separator]) + rest;
      assert j[|j| - |rest|..] == rest;
    }
  }
}
