# conv_num and my_datetime in Dafny

A model of two hand-written conversions in `task.py`, with proofs about what they return.

- **`conv_num`** turns a string into a Python `int`, a `float` or `None`. The string is first stripped and lower-cased. Text that starts with `0x` or `-0x` is then read by `parse_hex`. Other text holding a `.` is read by `parse_float`. Everything else is read by `parse_integer`.
- **`my_datetime`** turns a non-negative count of seconds since 1970-01-01 into `MM-DD-YYYY`. It peels whole years, then whole months, off the day count, using the Gregorian leap test `my_datetime_helper_function`.

The project has three modules:

- `Numerals` (`numerals.dfy`) holds the decimal digit sums both functions rely on. It also holds the shortest decimal rendering of a natural number, which is Python's `str(n)`.
- `NumberParser` (`number_parser.dfy`) covers `conv_num`, `parse_hex`, `parse_float` and `parse_integer`:
  - `ConvNum`, `ParseFloat`, `FloatFromParts` and `ParseInteger` are functions, because the source computes them with expressions and `sum(...)`.
  - `parse_hex` updates an accumulator in a loop. It is the method `ParseHex`, proved equal to the function `HexBranch`.
  - The lemmas characterise each branch in both directions: what it accepts, with which value, and what it rejects. They also prove decimal and hexadecimal round trips.
- `EpochDate` (`epoch_date.dfy`) covers `my_datetime` and its leap-year helper:
  - `MyDatetime` is a method with the source's two loops and its 12-entry month array, whose February entry is patched in place.
  - It is proved to return the rendering of `CivilFromDays(numSec / 86400)`. That is the unique valid date whose day number since 1970-01-01 is the number of whole days in the input.

Results are `Option<Number>`. `None` is Python's `None`, and `Number` is `Int(i)` or `Float(x)`. A Python float is modelled as the exact real number its digit sums denote.

The model follows the code where its own docstring disagrees with it. The docstring of `parse_float` (task.py:47) names `'123.'` among float strings, but `"123."` gives the int `123`. With nothing after the dot the fractional `sum` (task.py:61) is the int `0`, and an int plus an int is an int.

Two more results follow directly from the code:

- `"."` gives the int `0`. Both sides of the dot are empty, so both digit tests (task.py:55-58) pass and both sums are `0`.
- `"--12"` gives `-12`. `lstrip("-")` (task.py:70) drops every leading minus sign, and the sign test (task.py:69) only asks whether the text started with one.

## Model

| member | source | states |
|---|---|---|
| Numerals.DigitValue | task.py:60 | `ord(c) - ord('0')` is a decimal digit exactly when c is a digit character |
| Numerals.DecimalSumAppend | task.py:75 | the positional sum Σ dᵢ·10^i over the reversed digits equals left-to-right accumulation `10*v + d` |
| Numerals.DecimalSumBound | task.py:75 | n digits have a value in [0, 10^n) |
| Numerals.DecimalString | task.py:109 | `str(n)` is a non-empty digit string that starts with `0` only for n = 0 |
| Numerals.DecimalStringRoundTrip | task.py:75 | the digit sum of `str(n)` is n |
| Numerals.FracSumIsRatio | task.py:61 | Σ dᵢ·10^-(i+1) over the digits after the dot equals their integer value divided by 10^len |
| Numerals.FracSumBound | task.py:61 | the fractional part of a digit string lies in [0, 1) |
| NumberParser.LowerChar | task.py:20 | `lower()` leaves no upper-case letter, changes nothing else and keeps whitespace as whitespace |
| NumberParser.LStripSpec | task.py:17 | `lstrip()` drops only whitespace, as a prefix, and what it keeps does not start with whitespace |
| NumberParser.RStripSpec | task.py:17 | `rstrip()` drops only whitespace, as a suffix, and what it keeps does not end with whitespace |
| NumberParser.LStripDashSpec | task.py:49 | `lstrip("-")` splits the string into all of its leading minus signs and a rest that does not start with one |
| NumberParser.LStripDashKeeps | task.py:49-51 | stripping minus signs does not change how many dots the text holds |
| NumberParser.DotIndexSpec | task.py:54 | `split(".")` cuts at a dot, and no dot comes before it |
| NumberParser.HexDigitValueIsIndex | task.py:41 | a hex digit's value is its one and only position in `"0123456789abcdef"` |
| NumberParser.HexStringRoundTrip | task.py:39-41 | accumulating `v*16 + digit` over n's hex digits gives back n |
| NumberParser.HexBranch | task.py:31-43 | what parse_hex returns; ParseHex proves its loop computes it, ConvNumHex and ConvNumHexBranch state what it accepts and its value, ConvNumHexRoundTrip its inverse |
| NumberParser.ParseHex | task.py:31-43 | the accumulation loop returns `HexBranch`: None for empty digits or a non-hex character, else the base-16 value, negated for `-0x` |
| NumberParser.ConvNum | task.py:11-28 | conv_num's strip, lower and dispatch; ConvNumBlank, ConvNumNormalized, ConvNumIgnoresCase, ConvNumHexBranch, ConvNumIntegerShape and ConvNumPointShape state its result on every input |
| NumberParser.ParseFloat | task.py:46-54 | parse_float up to the split at the dot; ParseFloatShape states what it rejects and what it accepts, with which value |
| NumberParser.FloatFromParts | task.py:55-64 | the digit tests and sums after the split; FracSumIsRatio and FracSumBound state the fractional sum, ConvNumPoint the result |
| NumberParser.ParseInteger | task.py:67-76 | parse_integer; ConvNumInteger and ConvNumIntegerShape state what it accepts, with which value |
| NumberParser.ConvNumBlank | task.py:17-18 | the empty string and every all-whitespace string give None |
| NumberParser.ConvNumNormalized | task.py:17-20 | every string gives the same result as its `strip().lower()` form |
| NumberParser.ConvNumIgnoresCase | task.py:20 | two strings that differ only in letter case give the same result |
| NumberParser.ConvNumHex | task.py:22-43 | `0x`/`-0x` followed by non-empty hex digits gives their base-16 value, negated for `-0x` |
| NumberParser.ConvNumHexBranch | task.py:22-43 | after a hex prefix the result is Some exactly when the rest is non-empty and all hex digits, it has their value, and a `.` anywhere gives None |
| NumberParser.ConvNumInteger | task.py:67-76 | minus signs then digits give the decimal value, negated under any sign; signs with no digits give None |
| NumberParser.ConvNumIntegerShape | task.py:67-76 | every string the integer branch accepts is minus signs then a non-empty digit run, with that value |
| NumberParser.ParseFloatShape | task.py:46-64 | parse_float gives None for more than one dot, and anything it accepts is signs, digits, one dot and digits, with the value PointValue |
| NumberParser.ConvNumPoint | task.py:46-64 | signs, digits, a dot and digits (either run may be empty) give integer part plus exact fraction, negated under a sign, and an int when nothing follows the dot |
| NumberParser.ConvNumPointShape | task.py:46-64 | with a dot and no hex prefix: more than one dot gives None, and every accepted string has the shape and value ConvNumPoint states |
| NumberParser.ConvNumDecimalRoundTrip | task.py:67-76 | conv_num of `str(n)` is n and of `"-" + str(n)` is -n |
| NumberParser.ConvNumHexRoundTrip | task.py:31-43 | conv_num of `0x` plus n's hex digits is n, and with `-0x` it is -n |
| EpochDate.IsLeap | task.py:112-120 | the 400/100/4 cascade is the one-line Gregorian rule |
| EpochDate.MonthTable | task.py:86 | the 12-entry month table with February set by the leap test as task.py:98 does; MonthLength and MonthsFillYear state its entries and their sum |
| EpochDate.MonthLength | task.py:98 | a month has 28 to 31 days, and 29 exactly for February of a leap year |
| EpochDate.MonthsFillYear | task.py:90-91 | the year length `366 if is_leap else 365` is the sum of the twelve entries of the patched month table |
| EpochDate.MonthsBefore | task.py:100-105 | the days before a later month cover every earlier month |
| EpochDate.YearsBefore | task.py:89-96 | the days before a later year cover every earlier year |
| EpochDate.DayOfYearBound | task.py:100-107 | a valid date's offset into its year is below the year length |
| EpochDate.MonthStep | task.py:100-105 | peeling a whole month off what is left of a year never runs past December |
| EpochDate.MonthFrom | task.py:100-107 | the month loop as a recursion over the remaining days; MonthFromSpec states its result |
| EpochDate.MonthFromSpec | task.py:100-107 | peeling months yields a valid date of that year, exactly the remaining days into it |
| EpochDate.YearFrom | task.py:89-96 | the year loop as a recursion over the remaining days; YearFromSpec states its result |
| EpochDate.YearFromSpec | task.py:89-96 | peeling years yields a valid date no earlier than the start year, exactly the given days after it |
| EpochDate.CivilFromDays | task.py:84-107 | for every day count, a valid date on or after 1970 whose day number is that count |
| EpochDate.DayNumberInjective | task.py:84-107 | distinct valid dates have distinct day numbers |
| EpochDate.CivilFromDaysInverse | task.py:84-107 | every valid date is the date of its own day number |
| EpochDate.DateOfDayNumber | task.py:84-107 | a valid date with day number n is the one CivilFromDays(n) names |
| EpochDate.LeapDay | task.py:98 | February 29th is a valid date exactly in leap years, and each one is reached |
| EpochDate.DaysBeforeYearClosed | task.py:89-96 | the days before a year are 365 per year plus one per leap year since 1970 |
| EpochDate.Pad2 | task.py:109 | `{n:02d}` for 0..99 is exactly two digits |
| EpochDate.Pad2Value | task.py:109 | the two padded digits read back as n |
| EpochDate.Format | task.py:109 | `f"{month:02d}-{day:02d}-{year}"`; FormatRoundTrip states its shape and that the date reads back from it |
| EpochDate.FormatRoundTrip | task.py:109 | the output is two digits, `-`, two digits, `-`, the unpadded year, and the date reads back from it |
| EpochDate.MyDatetime | task.py:79-109 | the two loops return the rendering of the date whose day number is `num_sec // 86400`, so every second of one day gives the same string |
| EpochDate.FirstDayFormat | task.py:79-109 | every second of the first day, 0 among them, gives `01-01-1970` |
| EpochDate.Example1973 | task.py:79-109 | every second of day 1428, 123456789 among them, gives `11-29-1973` |
| EpochDate.Example2282 | task.py:79-109 | every second of day 114311, 9876543210 among them, gives `12-22-2282` |

## Left out

- `conv_endian` (task.py:123-151) is not a working function, so it has no behaviour to model:
  - it indexes an int;
  - it calls an int;
  - its digit loop divides before taking the remainder;
  - its A–F mapping only rebinds the loop variable;
  - it negates a string;
  - it never returns.
- The `isinstance(num_str, str)` test (task.py:17) is not modelled. The input is always a Dafny `string`.
- Floating point: `Float(x)` holds the exact real value. IEEE-754 rounding of `10 ** -(i + 1)` and of the sum is not modelled, so no claim is made about float equality such as `-123.45`.
- Unicode: `strip`, `lower` and `isdigit` are modelled on ASCII only. Whitespace is space, codes 9-13 and codes 28-31. Non-ASCII digits and letters are treated as ordinary characters.
- NumberParser.ParseFloat: does not raise Python's `OverflowError` when digits follow the dot and the integer part is too large for a float (about 1.8e308, for example `"1" + "0"*309 + ".5"`); task.py:63 then fails converting the int to a float, while the model returns the exact real `Float(10^309 + 0.5)`.
- NumberParser.ParseFloat: requires a `.` in its argument. Python's two-way `split` would raise on text without one, and conv_num only calls it on text that has one.
- EpochDate.MyDatetime: requires `num_sec >= 0`. For negative input the source's loops stop at once and return a day of 0 or less, which is not a date.
- Integers: Python's unbounded ints are Dafny's `int`, so no width or wrap-around arises.
