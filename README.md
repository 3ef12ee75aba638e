# PrintIp in Dafny

A model of `print_ip.cpp`, a small family of `PrintIp` overloads that write
a value as "IP-address-like" text: units separated by `.`, then one line
break.

- **Integral overload** (`PrintIp(T value)` for integral `T`): a loop that
  writes `value & 0xFF` in decimal, shifts `value >>= 8`, and stops with a
  line break when the value has become 0, writing `.` otherwise. The units
  are the base-256 digits of the value, **least significant first**, and
  there are as many as the value needs (not the type's width): `0` is
  written `0`, `256` is written `0.1`.
- **Container overload**: walks a container in iteration order, writes each
  element with `operator<<` and a `.` after every element but the last,
  then a line break.
- **Tuple overload**: the countdown recursion `PrintTuple<I>::Print`, which
  at count `I` writes member `K - I` (so members 0 .. K-1 in order), a `.`
  when `I > 1`, and stops at the no-op `PrintTuple<0>`. Each member is first
  copied into an `auto` variable, and a `static_assert` refuses it unless
  the type deduced for that copy (reference and top-level `const` dropped)
  is the type the tuple declares for member 0. The line break is written
  once, after the recursion.

The stream is modelled by the text each call returns. How `operator<<`
writes a container or tuple element is the parameter `show: T -> string`.
The choice of overload is the `PrintIp.Printable` datatype; the
`static_assert` is the `Err(DifferentTypesInTuple)` result, produced before
any text exists. A tuple member carries the type the tuple declares for it
(`PrintIp.CppType`: a base type, `const` or not, reference or not).

Modules: `Wrappers` (Option, Result), `Decimal` (the decimal text of a
number and its inverse), `Units` (joining units with `.`, splitting them
back), `Bytes` (the arithmetic of the integral loop, and the bit pattern of
a value of a given C++ integral type), `PrintIp` (the three overloads, the
countdown helper and the overload selection), `PrintIpExamples` (concrete
outputs).

`value & 0xFF` is modelled as `v % 256` and `value >>= 8` as `v / 256`;
with Dafny's Euclidean division these are exactly the two's-complement mask
and the arithmetic shift, negative values included. The program is written
in C++17, where right-shifting a negative value is implementation-defined;
GCC, Clang and MSVC shift arithmetically, and C++20 requires it, so the
model takes the arithmetic shift.

The integral overload writes a variable number of units, least
significant first, not the type's width most significant first: 2130706433
is written `1.0.0.127`, while the tuple `(127, 0, 0, 1)` is written
`127.0.0.1` (see `PrintIpExamples`). Container elements are written with
`operator<<`, and there is no separate overload for text.

## Model

| member | source | states |
|---|---|---|
| `Decimal.NatText` | print_ip.cpp:20 | the decimal text of a byte is non-empty, all digits, without leading zero, and starts with `0` exactly when the number is 0 |
| `Decimal.ParseNatText` | print_ip.cpp:20 | reading the decimal text of n back gives n |
| `Decimal.NatTextOfDigits` | print_ip.cpp:20 | every canonical digit string is the text of the number it denotes (the decimal text is unique) |
| `Units.SplitJoin` | print_ip.cpp:43-48 | splitting units joined by `.` at the separators gives the same units back, in order, when no unit holds a `.` |
| `Units.JoinSeparators` | print_ip.cpp:43-48 | N units without `.` are joined by exactly N - 1 separators |
| `Units.JoinAvoids` | print_ip.cpp:43-49 | joining adds no character but the separator |
| `Units.JoinEnds` | print_ip.cpp:46-47 | joined units begin with the first unit and end with the last: no separator is written before the first unit or after the last (a unit's own text may still begin or end with `.`) |
| `Bytes.LowByte` | print_ip.cpp:20 | `value & 0xFF` lies in 0..255 |
| `Bytes.Shr8` | print_ip.cpp:21 | the shifted value and the low byte together rebuild the value: `v == 256 * (v >> 8) + (v & 0xFF)` |
| `Bytes.ByteDigits` | print_ip.cpp:18-29 | the loop emits at least one unit and every unit is a byte |
| `Bytes.DigitsRoundTrip` | print_ip.cpp:18-29 | summing unit i times 256^i over the emitted units gives the value back |
| `Bytes.DigitsCanonical` | print_ip.cpp:18-26 | 0 is emitted as the single unit 0, and for a positive value the last unit is non-zero |
| `Bytes.DigitsOfNumber` | print_ip.cpp:18-29 | every canonical digit sequence is what the loop emits for the number it denotes (the units are determined by the value and vice versa) |
| `Bytes.UnitCountMinimal` | print_ip.cpp:18-26 | the number of units n is the least n >= 1 with value < 256^n |
| `Bytes.NegativeNeverReachesZero` | print_ip.cpp:21-22 | on a negative value, no number of shifts reaches 0, so the exit test never holds |
| `Bytes.MinusOneRepeats` | print_ip.cpp:18-29 | for -1 every pass leaves -1 and emits 255 |
| `Bytes.BitPattern` | print_ip.cpp:15-16 | the bit pattern of a value of an integral type fits the type's width and equals the value when it is non-negative |
| `Bytes.BitPatternRoundTrip` | print_ip.cpp:15-16 | the value is recovered from its bit pattern |
| `Bytes.PatternValueRoundTrip` | print_ip.cpp:15-16 | every pattern of the type's width is the bit pattern of a value of that type |
| `Bytes.BitPatternLowByte` | print_ip.cpp:20 | the low byte of the bit pattern is `value & 0xFF` of the value itself |
| `Bytes.PatternUnitCount` | print_ip.cpp:18-29 | a bit pattern of a W-byte type is written in at most W units |
| `Bytes.DigitsAreShifts` | print_ip.cpp:18-29 | unit k that the loop emits is the low byte of the value shifted k times |
| `Bytes.ShiftOffset` | print_ip.cpp:21 | shifting k times a value raised by 256^n, k <= n, gives the shifted value raised by 256^(n - k) |
| `Bytes.PatternUnitsAreShifts` | print_ip.cpp:18-29 | unit k of the bit pattern's text is the unit the loop as written emits in pass k, negative values included: the corrected units are the first units the source writes |
| `PrintIp.IntegralStep` | print_ip.cpp:18-29 | one pass of the loop: the low byte in decimal, then, if the shift leaves something, `.` and the text of what it leaves |
| `PrintIp.PrintIpIntegral` | print_ip.cpp:15-30 | the loop on a non-negative value writes exactly the integral text of the value |
| `PrintIp.PrintIpIntegralOfType` | print_ip.cpp:15-30 | a value of an integral type is written as the integral text of its bit pattern, which is its own text when it is non-negative |
| `PrintIp.IntegralUnits` | print_ip.cpp:18-29 | the integral text's units are the value's base-256 digits in decimal, low byte first, with one `.` fewer than units, followed by the line break |
| `PrintIp.IntegralEnds` | print_ip.cpp:18-29 | the integral text holds exactly one line break, and its body begins and ends with a digit: no leading or trailing separator |
| `PrintIp.IntegralRoundTrip` | print_ip.cpp:18-29 | reading the integral text back gives the value |
| `PrintIp.PrintIpContainer` | print_ip.cpp:40-50 | the loop writes each element in order with `.` after all but the last, then a line break |
| `PrintIp.ContainerEnds` | print_ip.cpp:43-49 | the container text ends with the line break, is only the line break for an empty container, and otherwise begins with the first element and ends its body with the last |
| `PrintIp.ContainerUnits` | print_ip.cpp:43-48 | the units of the container text are its elements in iteration order, with exactly N - 1 separators |
| `PrintIp.ContainerOneLineBreak` | print_ip.cpp:45-49 | when no element text holds a line break, the container text holds exactly one |
| `PrintIp.PrintTuple` | print_ip.cpp:56-78 | the countdown at I is refused, with the `static_assert`'s rejection, exactly when for one of the last I members the type `auto` deduces is not member 0's declared type |
| `PrintIp.PrintTupleOrder` | print_ip.cpp:56-78 | the countdown at I writes members K - I .. K - 1 in index order with `.` between neighbours |
| `PrintIp.PrintTupleWhole` | print_ip.cpp:84-89 | the countdown started at the tuple's size, when accepted, writes all members in index order joined by `.` |
| `PrintIp.PrintIpTuple` | print_ip.cpp:84-89 | a tuple is refused exactly when some member's deduced type is not member 0's declared type, and otherwise is written exactly as a container of its member values, followed by one line break |
| `PrintIp.AcceptedTypes` | print_ip.cpp:59-63 | a non-empty tuple is accepted exactly when member 0 is declared without `const` or reference and every member has member 0's base type |
| `PrintIp.PrintIp` | print_ip.cpp:15-89 | a container or tuple argument is written by its overload, and only a tuple failing the `static_assert`'s type test is refused; an integral argument is written as the integral text of its bit pattern, which is the overload's own output for a non-negative value and the corrected output for a negative one (see Findings) |
| `PrintIpExamples.SmallIntegrals` | print_ip.cpp:18-29 | 0 is written `0`, 255 `255`, 256 `0.1` |
| `PrintIpExamples.LoopbackAsInteger` | print_ip.cpp:18-29 | 2130706433 is written `1.0.0.127` |
| `PrintIpExamples.LoopbackAsTuple` | print_ip.cpp:84-89 | the tuple (127, 0, 0, 1) is written `127.0.0.1` |
| `PrintIpExamples.MixedTupleRefused` | print_ip.cpp:63 | a tuple of an `int` and a `long` is refused |
| `PrintIpExamples.ReferenceTupleRefused` | print_ip.cpp:62-63 | a tuple of `int&` members, as `std::tie` makes, is refused |
| `PrintIpExamples.ConstMemberAccepted` | print_ip.cpp:62-63 | the tuple `(int 1, const int 2)` is accepted and written `1.2` |
| `PrintIpExamples.MinusOneAsInt` | print_ip.cpp:15-30 | with the bit-pattern correction, -1 as a 32-bit `int` is written `255.255.255.255` |

## Left out

- Stream output (`std::cout`, `std::endl` and its flush): each overload returns the text it would write.
- `operator<<` for `std::string` (print_ip.cpp:32-35), and `operator<<` for element types in general: the parameter `show` stands for it. Its one quirk, stopping at the first NUL character because it writes `c_str()`, is therefore not modelled.
- Overload resolution (`enable_if`, partial ordering of the templates): the argument's shape is a variant of `Printable`. Its C++ artefacts are not modelled: a `std::string` argument would select the container overload and write its characters separated by `.`, and `char` elements are written as characters.
- `main` (print_ip.cpp:94-117), a demonstration driver; some of its values appear in `PrintIpExamples`.
- PrintIp.PrintIpIntegral: requires a non-negative value, because the loop as written never ends on a negative one (see Findings); negative values are written through `PrintIp.PrintIpIntegralOfType`.
- PrintIp.PrintIp: an integral argument of negative value is written by the corrected loop on its bit pattern (`PrintIp.PrintIpIntegralOfType`), because the overload as written never ends on it (see Findings); the dispatch does not model that non-termination.
- PrintIp.ContainerUnits: states the order and separator count only when no element text contains `.`; with such an element the units cannot be told apart in the text, and `PrintIp.PrintIpContainer` still fixes the exact text.
- PrintIp.CppType: carries only `const` and reference at the top level; `volatile` and qualifiers inside the type are part of its base name, so a `volatile` member that `auto` would strip is compared as a different type.
- The width of an integral type only bounds its values (`Bytes.InRange`); the loop itself needs no width, since a non-negative value is shifted until it is 0.

## Findings

| source | as written | input that shows it | evidently intended | confidence | as-written member | corrected member |
|---|---|---|---|---|---|---|
| print_ip.cpp:18-29 | the loop ends only when `value >>= 8` reaches 0; on a negative signed value the shift is arithmetic (implementation-defined in C++17, arithmetic in GCC, Clang and MSVC, required since C++20) and never reaches 0 | `PrintIp(-1)` with `int`: every pass writes `255.` and the loop never ends | write the bytes of the value's two's-complement pattern in its type, `255.255.255.255` for `int` -1 | medium; not executed | `Bytes.NegativeNeverReachesZero` | `PrintIp.PrintIpIntegralOfType` |
