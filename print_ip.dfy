/**
 * The PrintIp family: three overloads that write a value as '.'-separated
 * units followed by one line break. The stream is modelled by the text
 * each call returns; how a container or tuple element is written by
 * `operator<<` is the parameter `show`.
 */
module PrintIp {
  import opened Wrappers
  import opened Decimal
  import opened Units
  import opened Bytes

  /** A C++ type as a tuple declares a member: a base type, possibly `const`, possibly a reference. */
  datatype CppType = CppType(base: string, isConst: bool, isReference: bool)

  /** The type `auto` deduces from an initializer of type t: the reference and the top-level `const` are dropped. */
  function Deduced(t: CppType): CppType {
    CppType(t.base, false, false)
  }

  /** A tuple member: the type the tuple declares for it, and its value. */
  datatype Member<T> = Member(declared: CppType, value: T)

  /** Why a call is refused before anything is written: the static_assert of PrintTuple. */
  datatype Rejection = DifferentTypesInTuple

  /** The argument shapes that select the three overloads. */
  datatype Printable<T> =
    | Integral(value: int, intType: IntType)
    | Container(elements: seq<T>)
    | Tuple(members: seq<Member<T>>)

  // ---------------------------------------------------------------------
  // Integral overload

  /** Each number of d in decimal. */
  function DecimalUnits(d: seq<nat>): seq<string> {
    MapSeq<nat, string>(NatText, d)
  }

  /** The decimal units of a non-negative value, low byte first. */
  function ByteUnits(v: nat): seq<string> {
    DecimalUnits(ByteDigits(v))
  }

  /** The text of a non-negative value: its base-256 digits, low byte first, in decimal, joined, then a line break. */
  function IntegralText(v: nat): string {
    Join(ByteUnits(v)) + [LineBreak]
  }

  /**
   * One pass of the loop: the joined units of v are the low byte in
   * decimal, followed, when the shift leaves something, by a separator and
   * the joined units of what it leaves.
   */
  lemma IntegralStep(v: nat)
    ensures Join(ByteUnits(v)) ==
      NatText(LowByte(v)) + (if Shr8(v) == 0 then "" else [Separator] + Join(ByteUnits(Shr8(v))))
  {
    var d := ByteDigits(v);
    var x := LowByte(v);
    var u := NatText(x);
    if Shr8(v) == 0 {
      assert d == [x] + [];
      MapSeqCons<nat, string>(NatText, x, []);
      assert DecimalUnits(d) == [u];
    } else {
      var rest := ByteDigits(Shr8(v));
      assert d == [x] + rest;
      MapSeqCons<nat, string>(NatText, x, rest);
      assert DecimalUnits(d) == [u] + DecimalUnits(rest);
      JoinCons(u, DecimalUnits(rest));
      assert u + [Separator] + Join(DecimalUnits(rest)) == u + ([Separator] + Join(DecimalUnits(rest)));
      assert ByteUnits(Shr8(v)) == DecimalUnits(rest);
      assert Join(ByteUnits(v)) == u + ([Separator] + Join(ByteUnits(Shr8(v))));
    }
  }

  /** What one pass of the loop appends keeps the text written so far a prefix of the whole text. */
  lemma IntegralAppend(written: string, v: nat, whole: string)
    requires written + Join(ByteUnits(v)) == whole
    ensures Shr8(v) == 0 ==> written + NatText(LowByte(v)) == whole
    ensures Shr8(v) != 0 ==> written + NatText(LowByte(v)) + [Separator] + Join(ByteUnits(Shr8(v))) == whole
  {
    IntegralStep(v);
    if Shr8(v) != 0 {
      AppendSeparated(written, NatText(LowByte(v)), Join(ByteUnits(Shr8(v))));
    }
  }

  /** The integral overload on a value it terminates on: emit the low byte, shift, stop at 0 or write a separator. */
  method PrintIpIntegral(value: int) returns (out: string)
    requires value >= 0
    ensures out == IntegralText(value)
  {
    ghost var whole := Join(ByteUnits(value));
    var v := value;
    out := "";
    while true
      invariant v >= 0
      invariant out + Join(ByteUnits(v)) == whole
      decreases v
    {
      IntegralAppend(out, v, whole);
      out := out + NatText(LowByte(v));
      v := Shr8(v);
      if v == 0 {
        out := out + [LineBreak];
        break;
      } else {
        out := out + [Separator];
      }
    }
  }

  /**
   * The integral overload for a value of a given C++ type, negative ones
   * included: the loop runs on the value's bit pattern in that type.
   */
  method PrintIpIntegralOfType(value: int, t: IntType) returns (out: string)
    requires InRange(value, t)
    ensures out == IntegralText(BitPattern(value, t))
    ensures value >= 0 ==> out == IntegralText(value)
  {
    out := PrintIpIntegral(BitPattern(value, t));
  }

  /** Reads back the units of a text as bytes; refuses a unit that is not a byte in decimal. */
  function ParseBytes(units: seq<string>): (r: Option<seq<nat>>)
    ensures r.Some? ==> |r.value| == |units|
    ensures r.Some? ==> forall i :: 0 <= i < |r.value| ==> r.value[i] < 256
  {
    if units == [] then Some([])
    else
      match (ParseNat(units[0]), ParseBytes(units[1..]))
      case (Some(b), Some(rest)) => if b < 256 then Some([b] + rest) else None
      case _ => None
  }

  /** Reads back the text of the integral overload: the value whose digits its units are. */
  function ParseIntegral(s: string): Option<nat> {
    if |s| == 0 || s[|s| - 1] != LineBreak then None
    else
      match ParseBytes(Split(s[..|s| - 1]))
      case Some(d) => Some(FromDigits(d))
      case None => None
  }

  lemma {:induction false} ParseBytesOfTexts(d: seq<nat>)
    requires forall i :: 0 <= i < |d| ==> d[i] < 256
    ensures ParseBytes(DecimalUnits(d)) == Some(d)
    decreases |d|
  {
    if d != [] {
      var units := DecimalUnits(d);
      assert units[1..] == DecimalUnits(d[1..]);
      ParseNatText(d[0]);
      ParseBytesOfTexts(d[1..]);
      assert d == [d[0]] + d[1..];
    }
  }

  /** Decimal text never contains the separator or a line break. */
  lemma DecimalAvoids(d: seq<nat>, c: char)
    requires !IsDigit(c)
    ensures Avoids(DecimalUnits(d), c)
  {
    var units := DecimalUnits(d);
    forall i | 0 <= i < |units| ensures c !in units[i] {
      assert IsCanonical(units[i]);
    }
  }

  /**
   * The units of the integral text are the base-256 digits of the value,
   * low byte first, one decimal unit each, with one separator between
   * neighbours.
   */
  lemma IntegralUnits(v: nat)
    ensures var s := IntegralText(v);
      && |s| >= 1 && s[|s| - 1] == LineBreak
      && Split(s[..|s| - 1]) == ByteUnits(v)
      && Count(s, Separator) == |ByteDigits(v)| - 1
  {
    var units := ByteUnits(v);
    var s := IntegralText(v);
    assert s[..|s| - 1] == Join(units);
    DecimalAvoids(ByteDigits(v), Separator);
    SplitJoin(units);
    JoinSeparators(units);
  }

  /** The integral text holds exactly one line break, and its body begins and ends with a digit. */
  lemma IntegralEnds(v: nat)
    ensures var s := IntegralText(v);
      && |s| >= 2
      && Count(s, LineBreak) == 1
      && IsDigit(s[0]) && IsDigit(s[|s| - 2])
  {
    var units := ByteUnits(v);
    var body := Join(units);
    DecimalAvoids(ByteDigits(v), LineBreak);
    JoinAvoids(units, LineBreak);
    JoinEnds(units);
    var first := units[0];
    var last := units[|units| - 1];
    assert IsCanonical(first) && IsCanonical(last);
    assert body[0] == first[0];
    assert body[|body| - 1] == last[|last| - 1];
  }

  /** Reading the integral text back gives the value: the units are its base-256 digits. */
  lemma IntegralRoundTrip(v: nat)
    ensures ParseIntegral(IntegralText(v)) == Some(v)
  {
    var d := ByteDigits(v);
    var s := IntegralText(v);
    IntegralUnits(v);
    ParseBytesOfTexts(d);
    DigitsRoundTrip(v);
  }

  // ---------------------------------------------------------------------
  // Container overload

  /** The text of a container: its elements as `operator<<` writes them, in order, joined, then a line break. */
  function ContainerText<T>(elements: seq<T>, show: T -> string): string {
    Join(MapSeq(show, elements)) + [LineBreak]
  }

  /** The container overload: write each element, and a separator after every element but the last. */
  method PrintIpContainer<T>(container: seq<T>, show: T -> string) returns (out: string)
    ensures out == ContainerText(container, show)
  {
    ghost var texts := MapSeq(show, container);
    out := "";
    var i := 0;
    while i < |container|
      invariant 0 <= i <= |container|
      invariant out + Join(texts[i..]) == Join(texts)
    {
      assert texts[i..] == [texts[i]] + texts[i + 1..];
      if i + 1 < |container| {
        JoinCons(texts[i], texts[i + 1..]);
      }
      out := out + show(container[i]);
      if i != |container| - 1 {
        out := out + [Separator];
      }
      i := i + 1;
    }
    out := out + [LineBreak];
  }

  /**
   * The container text ends with a line break; an empty container writes
   * only that; otherwise the text begins with the first element and its
   * body ends with the last, so no separator is written before the first
   * element or after the last.
   */
  lemma ContainerEnds<T>(elements: seq<T>, show: T -> string)
    ensures var s := ContainerText(elements, show);
      && |s| >= 1 && s[|s| - 1] == LineBreak
      && (|elements| == 0 ==> s == [LineBreak])
      && (|elements| >= 1 ==>
            && show(elements[0]) <= s
            && |show(elements[|elements| - 1])| < |s|
            && s[|s| - 1 - |show(elements[|elements| - 1])|..|s| - 1] == show(elements[|elements| - 1]))
  {
    var texts := MapSeq(show, elements);
    var body := Join(texts);
    var s := ContainerText(elements, show);
    assert s == body + [LineBreak];
    if |elements| >= 1 {
      JoinEnds(texts);
      assert s[..|body|] == body;
      assert s[|s| - 1 - |texts[|texts| - 1]|..|s| - 1] == body[|body| - |texts[|texts| - 1]|..];
    }
  }

  /**
   * When no element text holds a separator, the units of a non-empty
   * container's text are its elements in iteration order, with exactly N - 1
   * separators.
   */
  lemma ContainerUnits<T>(elements: seq<T>, show: T -> string)
    requires |elements| >= 1
    requires Avoids(MapSeq(show, elements), Separator)
    ensures var s := ContainerText(elements, show);
      && Split(s[..|s| - 1]) == MapSeq(show, elements)
      && Count(s, Separator) == |elements| - 1
  {
    var texts := MapSeq(show, elements);
    var s := ContainerText(elements, show);
    assert s[..|s| - 1] == Join(texts);
    SplitJoin(texts);
    JoinSeparators(texts);
  }

  /** When no element text holds a line break, the container text holds exactly one, at its end. */
  lemma ContainerOneLineBreak<T>(elements: seq<T>, show: T -> string)
    requires Avoids(MapSeq(show, elements), LineBreak)
    ensures Count(ContainerText(elements, show), LineBreak) == 1
  {
    JoinAvoids(MapSeq(show, elements), LineBreak);
  }

  // ---------------------------------------------------------------------
  // Tuple overload

  /** The member values of a tuple, in index order. */
  function Values<T>(tuple: seq<Member<T>>): (vs: seq<T>)
    ensures |vs| == |tuple|
    ensures forall j :: 0 <= j < |tuple| ==> vs[j] == tuple[j].value
  {
    MapSeq((m: Member<T>) => m.value, tuple)
  }

  /**
   * What the static_assert demands of every member: the type `auto` deduces
   * for it is the type the tuple declares for member 0.
   */
  predicate SameTypes<T>(tuple: seq<Member<T>>) {
    forall j :: 0 <= j < |tuple| ==> Deduced(tuple[j].declared) == tuple[0].declared
  }

  /**
   * PrintTuple<i>::Print: with i members left, copy member |tuple| - i into
   * an `auto` variable (refused unless its deduced type is member 0's
   * declared type), write it, a separator if i > 1, and go on with i - 1;
   * with none left, write nothing. The countdown at i is refused exactly when
   * one of the last i members fails that test.
   */
  function PrintTuple<T>(tuple: seq<Member<T>>, show: T -> string, i: nat): (r: Result<string, Rejection>)
    requires i <= |tuple|
    ensures r.Ok? <==> forall j :: |tuple| - i <= j < |tuple| ==> Deduced(tuple[j].declared) == tuple[0].declared
    ensures r.Err? ==> r.error == DifferentTypesInTuple
    decreases i
  {
    if i == 0 then Ok("")
    else
      var element := tuple[|tuple| - i];
      if Deduced(element.declared) != tuple[0].declared then Err(DifferentTypesInTuple)
      else
        match PrintTuple(tuple, show, i - 1)
        case Err(e) => Err(e)
        case Ok(rest) => Ok(show(element.value) + (if i > 1 then [Separator] else "") + rest)
  }

  /**
   * The tuple overload: the countdown from the tuple's size, then a line
   * break. A tuple is refused exactly when some member's deduced type differs
   * from member 0's declared type; otherwise it is written exactly as a
   * container of its member values.
   */
  function PrintIpTuple<T>(tuple: seq<Member<T>>, show: T -> string): (r: Result<string, Rejection>)
    ensures r.Ok? <==> SameTypes(tuple)
    ensures r.Ok? ==> r.value == ContainerText(Values(tuple), show)
    ensures r.Err? ==> r.error == DifferentTypesInTuple
  {
    PrintTupleWhole(tuple, show);
    match PrintTuple(tuple, show, |tuple|)
    case Err(e) => Err(e)
    case Ok(s) => Ok(s + [LineBreak])
  }

  /** An accepted countdown at i > 0 writes member |tuple| - i, a separator if i > 1, and what the countdown at i - 1 writes. */
  lemma PrintTupleStep<T>(tuple: seq<Member<T>>, show: T -> string, i: nat)
    requires 0 < i <= |tuple|
    requires PrintTuple(tuple, show, i).Ok?
    ensures PrintTuple(tuple, show, i - 1).Ok?
    ensures PrintTuple(tuple, show, i).value ==
      show(tuple[|tuple| - i].value) + (if i > 1 then [Separator] else "") + PrintTuple(tuple, show, i - 1).value
  {
  }

  /** When the countdown at i is accepted, it writes the last i members in index order, joined. */
  lemma {:induction false} PrintTupleOrder<T>(tuple: seq<Member<T>>, show: T -> string, i: nat)
    requires i <= |tuple|
    requires PrintTuple(tuple, show, i).Ok?
    ensures PrintTuple(tuple, show, i).value == Join(MapSeq(show, Values(tuple))[|tuple| - i..])
    decreases i
  {
    var texts := MapSeq(show, Values(tuple));
    var k := |tuple| - i;
    if i > 0 {
      PrintTupleStep(tuple, show, i);
      var head := show(tuple[k].value);
      assert texts[k] == head;
      assert texts[k..] == [texts[k]] + texts[k + 1..];
      if i == 1 {
        assert texts[k + 1..] == [];
        assert PrintTuple(tuple, show, 0).value == "";
        assert [head] + [] == [head];
      } else {
        PrintTupleOrder(tuple, show, i - 1);
        JoinCons(head, texts[k + 1..]);
      }
    }
  }

  /** An accepted countdown from the tuple's size writes all its members in index order, joined. */
  lemma PrintTupleWhole<T>(tuple: seq<Member<T>>, show: T -> string)
    ensures PrintTuple(tuple, show, |tuple|).Ok? ==>
      PrintTuple(tuple, show, |tuple|).value == Join(MapSeq(show, Values(tuple)))
  {
    if PrintTuple(tuple, show, |tuple|).Ok? {
      PrintTupleOrder(tuple, show, |tuple|);
      var texts := MapSeq(show, Values(tuple));
      assert texts[0..] == texts;
    }
  }

  /**
   * In type terms: a non-empty tuple is accepted exactly when member 0 is
   * declared without `const` or reference and every member is declared as
   * that type, possibly with `const` or reference added. So a tuple of
   * references such as `std::tie(a, b)` is refused at member 0, while
   * `tuple<int, const int>` is accepted.
   */
  lemma AcceptedTypes<T>(tuple: seq<Member<T>>, show: T -> string)
    requires |tuple| >= 1
    ensures PrintIpTuple(tuple, show).Ok? <==>
      && !tuple[0].declared.isConst && !tuple[0].declared.isReference
      && forall j :: 0 <= j < |tuple| ==> tuple[j].declared.base == tuple[0].declared.base
  {
    if PrintIpTuple(tuple, show).Ok? {
      assert Deduced(tuple[0].declared) == tuple[0].declared;
      forall j | 0 <= j < |tuple|
        ensures tuple[j].declared.base == tuple[0].declared.base
      {
        assert Deduced(tuple[j].declared) == tuple[0].declared;
      }
    }
  }

  // ---------------------------------------------------------------------
  // Overload selection

  /** PrintIp: the overload the argument's shape selects. */
  method PrintIp<T>(p: Printable<T>, show: T -> string) returns (r: Result<string, Rejection>)
    requires p.Integral? ==> InRange(p.value, p.intType)
    ensures p.Integral? ==> r == Ok(IntegralText(BitPattern(p.value, p.intType)))
    ensures p.Container? ==> r == Ok(ContainerText(p.elements, show))
    ensures p.Tuple? ==>
      r == (if SameTypes(p.members) then Ok(ContainerText(Values(p.members), show)) else Err(DifferentTypesInTuple))
  {
    match p
    case Integral(value, t) =>
      var s := PrintIpIntegralOfType(value, t);
      r := Ok(s);
    case Container(elements) =>
      var s := PrintIpContainer(elements, show);
      r := Ok(s);
    case Tuple(members) =>
      r := PrintIpTuple(members, show);
  }
}
