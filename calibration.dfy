/**
  The calibration sum `part1` of day1/src/main.rs.

  The input is split into lines; from each line only the decimal digits are
  kept; the first and the last of them (a single digit serves as both) form a
  two-digit value; the values are added up. A line without any digit makes the
  program panic, which the model reports as `None`.
*/
module Calibration {
  import opened Wrappers

  predicate IsDigit(c: char)
  {
    '0' <= c <= '9'
  }

  /** The value of one decimal digit. */
  type Digit = d: nat | d <= 9

  /** `to_digit(10)` of a decimal digit character. */
  function DigitValue(c: char): Digit
    requires IsDigit(c)
  {
    c as int - '0' as int
  }

  ghost predicate HasDigit(s: string)
  {
    exists k :: 0 <= k < |s| && IsDigit(s[k])
  }

  // ---------------------------------------------------------------------------
  // `str::lines`

  /** The position of the first line break in `s`. */
  function NewlineIndex(s: string): (r: Option<nat>)
    ensures r.Some? ==> r.value < |s| && s[r.value] == '\n'
  {
    if s == [] then None
    else if s[0] == '\n' then Some(0)
    else match NewlineIndex(s[1..])
      case Some(i) => Some(i + 1)
      case None => None
  }

  /** `NewlineIndex` finds the first line break, and finds none only where there is none. */
  lemma {:induction false} NewlineIndexIsFirst(s: string)
    ensures NewlineIndex(s).Some? ==> forall j :: 0 <= j < NewlineIndex(s).value ==> s[j] != '\n'
    ensures NewlineIndex(s).None? ==> '\n' !in s
    decreases |s|
  {
    if s != [] && s[0] != '\n' {
      NewlineIndexIsFirst(s[1..]);
      assert s == [s[0]] + s[1..];
    }
  }

  /** A line break with none before it is the one `NewlineIndex` finds. */
  lemma {:induction false} FirstNewline(s: string, k: nat)
    requires k < |s| && s[k] == '\n'
    requires forall j :: 0 <= j < k ==> s[j] != '\n'
    ensures NewlineIndex(s) == Some(k)
    decreases k
  {
    if k > 0 {
      FirstNewline(s[1..], k - 1);
    }
  }

  /** Without a line break, `NewlineIndex` finds none. */
  lemma NoNewline(s: string)
    requires '\n' !in s
    ensures NewlineIndex(s) == None
  {
  }

  /**
    `input.lines()`: the pieces between line breaks; an empty input has no
    lines and a final line break does not start an empty last line.
  */
  function Lines(s: string): seq<string>
    decreases |s|
  {
    if s == [] then []
    else match NewlineIndex(s)
      case None => [s]
      case Some(i) => [s[..i]] + Lines(s[i + 1..])
  }

  /** The text made of `lines`, each ended by a line break. */
  function Join(lines: seq<string>): string
  {
    if lines == [] then [] else lines[0] + ['\n'] + Join(lines[1..])
  }

  /** Splitting into lines loses nothing but a missing final line break. */
  lemma {:induction false} JoinOfLines(s: string)
    ensures Join(Lines(s)) == if s == [] || s[|s| - 1] == '\n' then s else s + ['\n']
    decreases |s|
  {
    if s != [] {
      NewlineIndexIsFirst(s);
      match NewlineIndex(s)
      case None =>
        assert Lines(s) == [s];
        assert Join([s]) == s + ['\n'] + Join([]);
        assert s[|s| - 1] in s;
      case Some(i) =>
        var line, rest := s[..i], s[i + 1..];
        var ls := Lines(s);
        assert ls == [line] + Lines(rest);
        assert ls[0] == line && ls[1..] == Lines(rest);
        assert Join(ls) == line + ['\n'] + Join(Lines(rest));
        assert s == line + ['\n'] + rest;
        JoinOfLines(rest);
        if rest == [] {
          assert s[|s| - 1] == '\n';
        } else {
          assert rest[|rest| - 1] == s[|s| - 1];
          if s[|s| - 1] != '\n' {
            assert line + ['\n'] + (rest + ['\n']) == s + ['\n'];
          }
        }
    }
  }

  /** No line holds a line break. */
  lemma {:induction false} LinesHaveNoBreaks(s: string)
    ensures forall i :: 0 <= i < |Lines(s)| ==> '\n' !in Lines(s)[i]
    decreases |s|
  {
    if s != [] {
      NewlineIndexIsFirst(s);
      match NewlineIndex(s)
      case None =>
        assert Lines(s) == [s];
      case Some(i) =>
        assert forall j :: 0 <= j < i ==> s[..i][j] == s[j];
        var ls := Lines(s);
        assert ls == [s[..i]] + Lines(s[i + 1..]);
        LinesHaveNoBreaks(s[i + 1..]);
        assert forall k :: 1 <= k < |ls| ==> ls[k] == Lines(s[i + 1..])[k - 1];
    }
  }

  /** A line ended by a line break is the first line of the text. */
  lemma LinesCons(l: string, t: string)
    requires '\n' !in l
    ensures Lines(l + ['\n'] + t) == [l] + Lines(t)
  {
    var s := l + ['\n'] + t;
    assert forall j :: 0 <= j < |l| ==> s[j] == l[j];
    FirstNewline(s, |l|);
    assert s[..|l|] == l && s[|l| + 1..] == t;
  }

  /** Lines without line breaks are recovered from their joined text, whatever follows it. */
  lemma {:induction false} LinesOfJoinAppend(lines: seq<string>, b: string)
    requires forall i :: 0 <= i < |lines| ==> '\n' !in lines[i]
    ensures Lines(Join(lines) + b) == lines + Lines(b)
  {
    if lines == [] {
      assert Join(lines) + b == b;
    } else {
      var l, tail := lines[0], lines[1..];
      var rest := Join(tail) + b;
      assert forall i :: 0 <= i < |tail| ==> tail[i] == lines[i + 1];
      calc {
        Lines(Join(lines) + b);
        { assert Join(lines) + b == l + ['\n'] + rest; LinesCons(l, rest); }
        [l] + Lines(rest);
        { LinesOfJoinAppend(tail, b); }
        [l] + (tail + Lines(b));
        { assert lines == [l] + tail; }
        lines + Lines(b);
      }
    }
  }

  /** Lines without line breaks are recovered from their joined text. */
  lemma LinesOfJoin(lines: seq<string>)
    requires forall i :: 0 <= i < |lines| ==> '\n' !in lines[i]
    ensures Lines(Join(lines)) == lines
  {
    LinesOfJoinAppend(lines, []);
    assert Join(lines) + [] == Join(lines);
  }

  /** An input that ends at a line break splits apart from whatever follows it. */
  lemma LinesAppend(a: string, b: string)
    requires a == [] || a[|a| - 1] == '\n'
    ensures Lines(a + b) == Lines(a) + Lines(b)
  {
    JoinOfLines(a);
    LinesHaveNoBreaks(a);
    LinesOfJoinAppend(Lines(a), b);
  }

  // ---------------------------------------------------------------------------
  // One line

  /** `line.chars().filter(|c| c.is_digit(10))`, as digit values. */
  function Digits(s: string): seq<Digit>
  {
    if s == [] then []
    else (if IsDigit(s[0]) then [DigitValue(s[0])] else []) + Digits(s[1..])
  }

  /** `Iterator::last`. */
  function Last(s: seq<Digit>): (r: Option<Digit>)
    ensures r.None? <==> s == []
    ensures r.Some? ==> r.value in s
  {
    if s == [] then None else Some(s[|s| - 1])
  }

  /**
    The value of one line: the first digit, taken with `next().unwrap()`
    (`None` where that panics), times ten, plus the last of the remaining
    digits, or the first digit again when none remain.
  */
  function LineValue(line: string): (r: Option<nat>)
    ensures r.Some? ==> r.value <= 99
  {
    var numbers := Digits(line);
    if numbers == [] then None
    else
      var first := numbers[0];
      var last := match Last(numbers[1..]) case Some(d) => d case None => first;
      Some(first * 10 + last)
  }

  /** A line panics exactly when it has no digit. */
  lemma LineValueDefined(line: string)
    ensures LineValue(line).None? <==> !HasDigit(line)
  {
    NoDigitsIffNone(line);
  }

  lemma {:induction false} NoDigitsIffNone(s: string)
    ensures Digits(s) == [] <==> !HasDigit(s)
    decreases |s|
  {
    if s != [] {
      NoDigitsIffNone(s[1..]);
      if HasDigit(s) && !IsDigit(s[0]) {
        var k :| 0 <= k < |s| && IsDigit(s[k]);
        assert s[1..][k - 1] == s[k];
      }
      if HasDigit(s[1..]) {
        var k :| 0 <= k < |s[1..]| && IsDigit(s[1..][k]);
        assert s[k + 1] == s[1..][k];
      }
    }
  }

  lemma {:induction false} DigitsAppend(a: string, b: string)
    ensures Digits(a + b) == Digits(a) + Digits(b)
    decreases |a|
  {
    if a == [] {
      assert a + b == b;
    } else {
      var head: seq<Digit> := if IsDigit(a[0]) then [DigitValue(a[0])] else [];
      calc {
        Digits(a + b);
      == { assert (a + b)[0] == a[0]; assert (a + b)[1..] == a[1..] + b; }
        head + Digits(a[1..] + b);
      == { DigitsAppend(a[1..], b); }
        head + (Digits(a[1..]) + Digits(b));
      ==
        Digits(a) + Digits(b);
      }
    }
  }

  /** A stretch without digits contributes nothing. */
  lemma {:induction false} NoDigits(s: string)
    requires forall k :: 0 <= k < |s| ==> !IsDigit(s[k])
    ensures Digits(s) == []
    decreases |s|
  {
    if s != [] {
      NoDigits(s[1..]);
    }
  }

  /** Everything before the first digit contributes nothing. */
  lemma {:induction false} DigitsFrom(s: string, i: nat)
    requires i < |s| && IsDigit(s[i])
    requires forall k :: 0 <= k < i ==> !IsDigit(s[k])
    ensures Digits(s) == [DigitValue(s[i])] + Digits(s[i + 1..])
    decreases i
  {
    if i == 0 {
      assert s[1..] == s[i + 1..];
    } else {
      DigitsFrom(s[1..], i - 1);
      assert s[1..][i..] == s[i + 1..];
    }
  }

  /** Everything after the last digit contributes nothing. */
  lemma {:induction false} DigitsUpTo(s: string, j: nat)
    requires j < |s| && IsDigit(s[j])
    requires forall k :: j < k < |s| ==> !IsDigit(s[k])
    ensures Digits(s) == Digits(s[..j]) + [DigitValue(s[j])]
    decreases |s|
  {
    if j == 0 {
      assert forall k :: 0 <= k < |s[1..]| ==> s[1..][k] == s[k + 1];
      NoDigits(s[1..]);
    } else {
      DigitsUpTo(s[1..], j - 1);
      assert s[..j][0] == s[0] && s[..j][1..] == s[1..][..j - 1];
    }
  }

  /** After the first digit at `i`, the last remaining digit is the one at `j`, if `j` is past `i`. */
  lemma LastAfterFirst(line: string, i: nat, j: nat)
    requires i <= j < |line| && IsDigit(line[j])
    requires forall k :: j < k < |line| ==> !IsDigit(line[k])
    ensures Last(Digits(line[i + 1..])) == if i == j then None else Some(DigitValue(line[j]))
  {
    var tail := line[i + 1..];
    assert forall k :: 0 <= k < |tail| ==> tail[k] == line[i + 1 + k];
    if i == j {
      NoDigits(tail);
    } else {
      DigitsUpTo(tail, j - i - 1);
    }
  }

  /**
    If `line[i]` is the first digit of the line and `line[j]` the last, the
    line's value is ten times the one plus the other.
  */
  lemma FirstAndLastDigit(line: string, i: nat, j: nat)
    requires i <= j < |line| && IsDigit(line[i]) && IsDigit(line[j])
    requires forall k :: 0 <= k < i ==> !IsDigit(line[k])
    requires forall k :: j < k < |line| ==> !IsDigit(line[k])
    ensures LineValue(line) == Some(10 * DigitValue(line[i]) + DigitValue(line[j]))
  {
    var tail := line[i + 1..];
    DigitsFrom(line, i);
    LastAfterFirst(line, i, j);
    assert Digits(line)[1..] == Digits(tail);
  }

  /** A line with exactly one digit `d` is worth `11 * d`. */
  lemma SingleDigit(line: string, i: nat)
    requires i < |line| && IsDigit(line[i])
    requires forall k :: 0 <= k < |line| && k != i ==> !IsDigit(line[k])
    ensures LineValue(line) == Some(11 * DigitValue(line[i]))
  {
    FirstAndLastDigit(line, i, i);
  }

  // ---------------------------------------------------------------------------
  // The sum over all lines

  /** `values.sum()`; `None` when a line panics. */
  function SumValues(lines: seq<string>): Option<nat>
  {
    if lines == [] then Some(0)
    else Plus(LineValue(lines[0]), SumValues(lines[1..]))
  }

  /** The sum is defined exactly when every line holds a digit, and is at most 99 per line. */
  lemma {:induction false} SumValuesDefined(lines: seq<string>)
    ensures SumValues(lines).Some? <==> forall i :: 0 <= i < |lines| ==> HasDigit(lines[i])
    ensures SumValues(lines).Some? ==> SumValues(lines).value <= 99 * |lines|
  {
    if lines != [] {
      LineValueDefined(lines[0]);
      SumValuesDefined(lines[1..]);
      assert forall i :: 1 <= i < |lines| ==> lines[1..][i - 1] == lines[i];
    }
  }

  /** `part1`. */
  function Part1(input: string): (r: Option<nat>)
    ensures input == [] ==> r == Some(0)
  {
    SumValues(Lines(input))
  }

  /** Addition of two results that are `None` when either part panics. */
  function Plus(a: Option<nat>, b: Option<nat>): Option<nat>
  {
    if a.Some? && b.Some? then Some(a.value + b.value) else None
  }

  lemma {:induction false} SumValuesAppend(xs: seq<string>, ys: seq<string>)
    ensures SumValues(xs + ys) == Plus(SumValues(xs), SumValues(ys))
    decreases |xs|
  {
    if xs == [] {
      assert xs + ys == ys;
    } else {
      calc {
        SumValues(xs + ys);
      == { assert (xs + ys)[0] == xs[0]; assert (xs + ys)[1..] == xs[1..] + ys; }
        Plus(LineValue(xs[0]), SumValues(xs[1..] + ys));
      == { SumValuesAppend(xs[1..], ys); }
        Plus(LineValue(xs[0]), Plus(SumValues(xs[1..]), SumValues(ys)));
      }
    }
  }

  /** An input that ends at a line break contributes its sum to whatever follows it. */
  lemma Part1Append(a: string, b: string)
    requires a == [] || a[|a| - 1] == '\n'
    ensures Part1(a + b) == Plus(Part1(a), Part1(b))
  {
    LinesAppend(a, b);
    SumValuesAppend(Lines(a), Lines(b));
  }

  /** The sum is defined exactly when every line holds a digit, and is at most 99 per line. */
  lemma Part1Defined(input: string)
    ensures Part1(input).Some? <==> forall l :: l in Lines(input) ==> HasDigit(l)
    ensures Part1(input).Some? ==> Part1(input).value <= 99 * |Lines(input)|
  {
    SumValuesDefined(Lines(input));
  }

  /** Four lines separated by line breaks; the last one is not empty. */
  lemma FourLines(l1: string, l2: string, l3: string, l4: string)
    requires '\n' !in l1 && '\n' !in l2 && '\n' !in l3 && '\n' !in l4 && l4 != []
    ensures Lines(l1 + ['\n'] + (l2 + ['\n'] + (l3 + ['\n'] + l4))) == [l1, l2, l3, l4]
  {
    var t2 := l3 + ['\n'] + l4;
    var t1 := l2 + ['\n'] + t2;
    NoNewline(l4);
    LinesCons(l3, l4);
    LinesCons(l2, t2);
    LinesCons(l1, t1);
  }

  /** None of the lines of the program's own test input holds a break. */
  lemma ExampleBreaks()
    ensures '\n' !in "1abc2" && '\n' !in "pqr3stu8vwx"
    ensures '\n' !in "a1b2c3d4e5f" && '\n' !in "treb7uchet"
  {
  }

  // The example lemmas receive their text as a parameter pinned by `requires`
  // rather than as a literal in the `ensures`: a literal argument makes the
  // verifier unfold the recursive definitions over every character at once.

  /** The lines of the program's own test input. */
  lemma ExampleLines(input: string)
    requires input == "1abc2\npqr3stu8vwx\na1b2c3d4e5f\ntreb7uchet"
    ensures Lines(input) == ["1abc2", "pqr3stu8vwx", "a1b2c3d4e5f", "treb7uchet"]
  {
    var l1, l2, l3, l4 := "1abc2", "pqr3stu8vwx", "a1b2c3d4e5f", "treb7uchet";
    ExampleBreaks();
    assert input == l1 + ['\n'] + (l2 + ['\n'] + (l3 + ['\n'] + l4));
    FourLines(l1, l2, l3, l4);
  }

  // The values of the lines of the program's own test input.

  lemma ExampleLine1(line: string)
    requires line == "1abc2"
    ensures LineValue(line) == Some(12)
  {
    FirstAndLastDigit(line, 0, 4);
  }

  lemma ExampleLine2(line: string)
    requires line == "pqr3stu8vwx"
    ensures LineValue(line) == Some(38)
  {
    FirstAndLastDigit(line, 3, 7);
  }

  lemma ExampleLine3(line: string)
    requires line == "a1b2c3d4e5f"
    ensures LineValue(line) == Some(15)
  {
    FirstAndLastDigit(line, 1, 9);
  }

  lemma ExampleLine4(line: string)
    requires line == "treb7uchet"
    ensures LineValue(line) == Some(77)
  {
    SingleDigit(line, 4);
  }

  /** The sum over four lines whose values are known. */
  lemma SumOfFour(lines: seq<string>, a: nat, b: nat, c: nat, d: nat)
    requires |lines| == 4
    requires LineValue(lines[0]) == Some(a) && LineValue(lines[1]) == Some(b)
    requires LineValue(lines[2]) == Some(c) && LineValue(lines[3]) == Some(d)
    ensures SumValues(lines) == Some(a + b + c + d)
  {
    assert SumValues(lines[3..][1..]) == Some(0);
    assert SumValues(lines[2..][1..]) == Some(d) by { assert lines[2..][1..] == lines[3..]; }
    assert SumValues(lines[1..][1..]) == Some(c + d) by { assert lines[1..][1..] == lines[2..]; }
  }

  /** The example of the program's own test: 12 + 38 + 15 + 77. */
  lemma Part1Example(input: string)
    requires input == "1abc2\npqr3stu8vwx\na1b2c3d4e5f\ntreb7uchet"
    ensures Part1(input) == Some(142)
  {
    ExampleLines(input);
    var lines := Lines(input);
    ExampleLine1(lines[0]);
    ExampleLine2(lines[1]);
    ExampleLine3(lines[2]);
    ExampleLine4(lines[3]);
    SumOfFour(lines, 12, 38, 15, 77);
  }
}
