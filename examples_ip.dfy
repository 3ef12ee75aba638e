/** Concrete outputs of the PrintIp family, proved about the model. */
module PrintIpExamples {
  import opened Wrappers
  import opened Decimal
  import opened Units
  import opened Bytes
  import opened PrintIp

  const Int := CppType("int", false, false)
  const ConstInt := CppType("int", true, false)
  const IntRef := CppType("int", false, true)

  lemma SmallTexts()
    ensures NatText(0) == "0" && NatText(1) == "1" && NatText(127) == "127" && NatText(255) == "255"
  {
  }

  /** One pass of the loop on the value low + 256 * rest, when the shift leaves rest != 0. */
  lemma TextStep(low: nat, rest: nat, lowText: string, restText: string, text: string)
    requires low < 256 && rest != 0
    requires NatText(low) == lowText && Join(ByteUnits(rest)) == restText
    requires lowText + [Separator] + restText == text
    ensures Join(ByteUnits(low + 256 * rest)) == text
  {
    ShiftDigit(low, rest);
    IntegralStep(low + 256 * rest);
  }

  /** The last pass of the loop, on a value below 256. */
  lemma TextLast(low: nat, lowText: string)
    requires low < 256 && NatText(low) == lowText
    ensures Join(ByteUnits(low)) == lowText
  {
    ShiftDigit(low, 0);
    IntegralStep(low);
  }

  /** 0 is one unit; 256 is two units, low byte first. */
  lemma SmallIntegrals()
    ensures IntegralText(0) == "0\n"
    ensures IntegralText(255) == "255\n"
    ensures IntegralText(256) == "0.1\n"
  {
    SmallTexts();
    TextLast(0, "0");
    TextLast(255, "255");
    TextLast(1, "1");
    TextStep(0, 1, "0", "1", "0.1");
  }

  /** The text of a value whose joined units are known: those units, then the line break. */
  lemma TextWhole(v: nat, body: string, text: string)
    requires Join(ByteUnits(v)) == body
    requires body + [LineBreak] == text
    ensures IntegralText(v) == text
  {
  }

  /** The units of 0x7F00 = 32512, low byte first. */
  lemma LoopbackHigh()
    ensures Join(ByteUnits(32512)) == "0.127"
  {
    SmallTexts();
    TextLast(127, "127");
    TextStep(0, 127, "0", "127", "0.127");
  }

  /** The units of 0x7F0000 = 8323072, low byte first. */
  lemma LoopbackMiddle()
    ensures Join(ByteUnits(8323072)) == "0.0.127"
  {
    SmallTexts();
    LoopbackHigh();
    TextStep(0, 32512, "0", "0.127", "0.0.127");
  }

  /** The units of 0x7F000001 = 2130706433, low byte first. */
  lemma LoopbackUnits()
    ensures Join(ByteUnits(2130706433)) == "1.0.0.127"
  {
    LoopbackMiddle();
    assert NatText(1) == "1";
    assert "1" + [Separator] + "0.0.127" == "1.0.0.127";
    TextStep(1, 8323072, "1", "0.0.127", "1.0.0.127");
  }

  /** 2130706433 is 0x7F000001: the integral overload writes its bytes low first. */
  lemma LoopbackAsInteger()
    ensures IntegralText(2130706433) == "1.0.0.127\n"
  {
    LoopbackUnits();
    TextWhole(2130706433, "1.0.0.127", "1.0.0.127\n");
  }

  /** The last step of the countdown: the last member alone, when it is of member 0's type. */
  lemma TupleLast<T>(tuple: seq<Member<T>>, show: T -> string, memberText: string)
    requires 1 <= |tuple|
    requires Deduced(tuple[|tuple| - 1].declared) == tuple[0].declared
    requires show(tuple[|tuple| - 1].value) == memberText
    ensures PrintTuple(tuple, show, 1) == Ok(memberText)
  {
    assert PrintTuple(tuple, show, 0) == Ok("");
    assert memberText + "" + "" == memberText;
  }

  /** One step of the countdown on a member of member 0's type, with more members after it. */
  lemma TupleStep<T>(tuple: seq<Member<T>>, show: T -> string, i: nat, memberText: string, restText: string, text: string)
    requires 1 < i <= |tuple|
    requires Deduced(tuple[|tuple| - i].declared) == tuple[0].declared
    requires show(tuple[|tuple| - i].value) == memberText
    requires PrintTuple(tuple, show, i - 1) == Ok(restText)
    requires memberText + [Separator] + restText == text
    ensures PrintTuple(tuple, show, i) == Ok(text)
  {
  }

  /** The tuple (127, 0, 0, 1) is written in member order. */
  lemma LoopbackAsTuple()
    ensures PrintIpTuple<nat>([Member(Int, 127), Member(Int, 0), Member(Int, 0), Member(Int, 1)], NatText)
         == Ok("127.0.0.1\n")
  {
    var tuple: seq<Member<nat>> := [Member(Int, 127), Member(Int, 0), Member(Int, 0), Member(Int, 1)];
    SmallTexts();
    TupleLast(tuple, NatText, "1");
    TupleStep(tuple, NatText, 2, "0", "1", "0.1");
    TupleStep(tuple, NatText, 3, "0", "0.1", "0.0.1");
    TupleStep(tuple, NatText, 4, "127", "0.0.1", "127.0.0.1");
    assert "127.0.0.1" + [LineBreak] == "127.0.0.1\n";
  }

  /** A tuple whose second member is of another type is refused. */
  lemma MixedTupleRefused()
    ensures PrintIpTuple<nat>([Member(Int, 1), Member(CppType("long", false, false), 2)], NatText) == Err(DifferentTypesInTuple)
  {
    var tuple: seq<Member<nat>> := [Member(Int, 1), Member(CppType("long", false, false), 2)];
    assert Deduced(tuple[1].declared) != tuple[0].declared;
  }

  /** A tuple of references, as `std::tie` makes, is refused at member 0 although all its members are `int&`. */
  lemma ReferenceTupleRefused()
    ensures PrintIpTuple<nat>([Member(IntRef, 1), Member(IntRef, 2)], NatText) == Err(DifferentTypesInTuple)
  {
    var tuple: seq<Member<nat>> := [Member(IntRef, 1), Member(IntRef, 2)];
    assert Deduced(tuple[0].declared) != tuple[0].declared;
  }

  /** A `const int` member after an `int` member is accepted: `auto` drops the `const`. */
  lemma ConstMemberAccepted()
    ensures PrintIpTuple<nat>([Member(Int, 1), Member(ConstInt, 2)], NatText) == Ok("1.2\n")
  {
    var tuple: seq<Member<nat>> := [Member(Int, 1), Member(ConstInt, 2)];
    SmallTexts();
    assert NatText(2) == "2";
    TupleLast(tuple, NatText, "2");
    TupleStep(tuple, NatText, 2, "1", "2", "1.2");
    assert "1.2" + [LineBreak] == "1.2\n";
  }

  /** With the bit-pattern correction, -1 as a 32-bit int is four units of 255. */
  lemma MinusOneAsInt()
    ensures IntegralText(BitPattern(-1, IntType(4, true))) == "255.255.255.255\n"
  {
    assert Pow256(4) == 4294967296;
    SmallTexts();
    TextLast(255, "255");
    TextStep(255, 255, "255", "255", "255.255");
    TextStep(255, 65535, "255", "255.255", "255.255.255");
    TextStep(255, 16777215, "255", "255.255.255", "255.255.255.255");
  }
}
