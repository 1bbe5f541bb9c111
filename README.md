# Day 1: character trie and calibration sum

This project models the two pieces of the day-1 solution and proves properties of them.

- **`Trie`** (`trie.dfy`, from `day1/src/lib.rs`) is the character prefix tree.
  - A `Node` has a letter, its children in insertion order and an optional `u8` terminal value. The root carries the sentinel letter `'*'`.
  - `NewTree` builds the tree from `(word, value)` pairs by repeated `Insert`.
  - The tree is queried with a whole word (`Find`) or one character at a time (`Descend`).
  - Both answer `Complete(v)`, `Partial(subtree)` or `NoMatch`.
  - A child is looked up as the program does it: the first child with the letter (`FindChild`).
  - `NewTree` keeps the program's loop. It is proved equal to `Build`, the fold of `Insert` over the words.
  - The properties are proved about `Build`:
    - every inserted word is found, with its last inserted value;
    - `Partial` means the query is not an inserted word and is empty or a prefix of one;
    - `NoMatch` means the query is non-empty and no inserted word starts with it;
    - sibling letters stay unique.
- **`Calibration`** (`calibration.dfy`, from `day1/src/main.rs`) is `part1`.
  - It splits the input into lines and keeps the decimal digits of each line.
  - The first digit and the last digit form `10 * first + last`. A single digit serves as both.
  - The line values are added up.
  - A line without a digit makes the program panic on `unwrap`. The model answers `None` there.
- **`Wrappers`** (`wrappers.dfy`) holds the `Option` type.

## Model

| member | source | states |
|---|---|---|
| Trie.Default | day1/src/lib.rs:8-16 | the default node is a root (letter `'*'`) with unique sibling letters; looking up the empty word gives `Partial` of the node itself; every non-empty word gives `NoMatch` (so it has no value and no children) |
| Trie.FromChar | day1/src/lib.rs:25-32 | the node made from `c` has letter `c`; it is a root exactly when `c` is `'*'`; like the default node it has no value and no children |
| Trie.IsRoot | day1/src/lib.rs:35-37 | no contract of its own; `Trie.Default` and `Trie.FromChar` say which fresh nodes it accepts, and `Trie.BuildPartialNotRoot` says it rejects every node a non-empty `Partial` lookup reaches when no word contains `'*'` |
| Trie.FindChild | day1/src/lib.rs:79 | the index returned is that of a child with the letter, and no earlier child has it; `None` exactly when no child has the letter |
| Trie.Insert | day1/src/lib.rs:46-62 | after inserting `(w, v)` the node keeps its letter and `find(w)` gives `Complete(v)`, including the empty word, which sets the node's own value |
| Trie.InsertKeepsWellFormed | day1/src/lib.rs:50-57 | inserting keeps the sibling letters of every node unique, because an existing child is reused before a new one is pushed |
| Trie.InsertKeepsOtherValues | day1/src/lib.rs:46-62 | inserting `w` leaves the value found for every other word `p != w` unchanged |
| Trie.InsertNoMatch | day1/src/lib.rs:46-62 | after inserting `w`, a lookup of `p` fails exactly when it failed before and `p` is not a prefix of `w` |
| Trie.Build | day1/src/lib.rs:38-45 | the tree built from any word list is a root |
| Trie.BuildWellFormed | day1/src/lib.rs:38-57 | the tree built from any word list has unique sibling letters everywhere |
| Trie.NewTree | day1/src/lib.rs:38-45 | the loop over the words produces `Build(words)`, a root with unique sibling letters |
| Trie.BuildFindsWord | day1/src/lib.rs:38-62 | every inserted word is found `Complete`, with the value of its last occurrence in the list |
| Trie.BuildOnlyFindsWords | day1/src/lib.rs:86-88 | a word that was never inserted is never found `Complete` |
| Trie.BuildNoMatch | day1/src/lib.rs:79-83 | a lookup gives `NoMatch` exactly when the query is non-empty and no inserted word starts with it |
| Trie.BuildPartial | day1/src/lib.rs:75-89 | a lookup gives `Partial` exactly when the query is not an inserted word and is empty or a prefix of some inserted word |
| Trie.BuildPartialNotRoot | day1/src/lib.rs:35-37 | when no word contains `'*'`, the node reached by a non-empty `Partial` lookup is not a root |
| Trie.Descend | day1/src/lib.rs:64-73 | `NoMatch` exactly when no child has the letter; `Partial` gives a child with the letter and no value; `Complete(v)` comes from a child with the letter and value `v` |
| Trie.DescendIsFind | day1/src/lib.rs:64-73 | one step of `decend` gives the same answer as `find` of the one-letter word |
| Trie.DescendExtendsFind | day1/src/lib.rs:64-91 | a `Partial` lookup of `p` followed by `decend(c)` gives the lookup of `p + [c]` |
| Trie.Find | day1/src/lib.rs:75-91 | a `Partial` answer is a node without a value, and for a non-empty word it carries the word's last letter |
| Trie.NoMatchIsFinal | day1/src/lib.rs:79-83 | once a lookup fails, every longer query with that prefix fails too |
| Trie.FindThroughPartial | day1/src/lib.rs:75-91 | looking up `p + q` is looking up `q` in the subtree that the `Partial` lookup of `p` reaches |
| Calibration.NewlineIndex | day1/src/main.rs:2 | a position it returns holds a `'\n'`; `Calibration.NewlineIndexIsFirst` adds that it is the first one and that `None` means there is none |
| Calibration.Lines | day1/src/main.rs:2 | no contract of its own; `Calibration.JoinOfLines` and `Calibration.LinesOfJoin` give the round trip with `Join`, `Calibration.LinesHaveNoBreaks`, `Calibration.LinesCons` and `Calibration.LinesAppend` say how it splits |
| Calibration.NewlineIndexIsFirst | day1/src/main.rs:2 | the break a line is cut at is the first `'\n'`; when none is found there is no `'\n'` |
| Calibration.LinesHaveNoBreaks | day1/src/main.rs:2 | no line contains `'\n'` |
| Calibration.JoinOfLines | day1/src/main.rs:2 | writing each line back followed by `'\n'` rebuilds the input, plus a final break when the input did not end with one |
| Calibration.LinesOfJoin | day1/src/main.rs:2 | splitting lines that were written out each followed by `'\n'` gives back exactly those lines |
| Calibration.LinesCons | day1/src/main.rs:2 | a line followed by a break and a rest splits into that line and the lines of the rest |
| Calibration.LinesAppend | day1/src/main.rs:2 | an input that ends at a line break splits independently of whatever follows it |
| Calibration.FourLines | day1/src/main.rs:2 | four break-free lines joined by three breaks split into exactly those four lines when the last one is not empty |
| Calibration.IsDigit | day1/src/main.rs:4 | no contract of its own; the characters `'0'` to `'9'`, whose role in a line `Calibration.NoDigitsIffNone`, `Calibration.DigitsFrom` and `Calibration.DigitsUpTo` state |
| Calibration.DigitValue | day1/src/main.rs:5-7 | no contract of its own; its result type `Digit` bounds it by 9, which gives the bound of `Calibration.LineValue` |
| Calibration.Digits | day1/src/main.rs:4 | no contract of its own; `Calibration.DigitsAppend`, `Calibration.NoDigitsIffNone`, `Calibration.DigitsFrom` and `Calibration.DigitsUpTo` say which digits it keeps and in what order |
| Calibration.Last | day1/src/main.rs:6 | `last` is `None` exactly on no digits, and otherwise one of them |
| Calibration.DigitsAppend | day1/src/main.rs:4 | filtering the digits of a concatenation concatenates the filtered parts |
| Calibration.NoDigitsIffNone | day1/src/main.rs:4-5 | the filtered digits are empty exactly when the line holds no digit character |
| Calibration.DigitsFrom | day1/src/main.rs:4-5 | the first digit kept is the first digit character of the line; nothing before it contributes |
| Calibration.DigitsUpTo | day1/src/main.rs:4-6 | the last digit kept is the last digit character of the line; nothing after it contributes |
| Calibration.LastAfterFirst | day1/src/main.rs:6-9 | after the first digit, `last` is the last digit of the line, or `None` when the first digit is the only one |
| Calibration.LineValue | day1/src/main.rs:3-10 | a line's value is at most 99 |
| Calibration.LineValueDefined | day1/src/main.rs:5 | a line's value is missing (the program panics) exactly when the line holds no digit |
| Calibration.FirstAndLastDigit | day1/src/main.rs:3-10 | a line's value is ten times its first digit plus its last digit; other characters are ignored |
| Calibration.SingleDigit | day1/src/main.rs:6-9 | a line with exactly one digit `d` is worth `11 * d` |
| Calibration.SumValues | day1/src/main.rs:12 | no contract of its own; `Calibration.SumValuesDefined`, `Calibration.SumValuesAppend` and `Calibration.SumOfFour` say when the sum exists, its bound and how it splits |
| Calibration.SumValuesDefined | day1/src/main.rs:12 | the sum exists exactly when every line holds a digit, and it is at most 99 per line |
| Calibration.SumValuesAppend | day1/src/main.rs:12 | the sum over two runs of lines is the sum of their sums |
| Calibration.SumOfFour | day1/src/main.rs:12 | four lines with known values sum to the total of those values |
| Calibration.Part1 | day1/src/main.rs:1-14 | the empty input sums to 0 |
| Calibration.Part1Defined | day1/src/main.rs:1-14 | `part1` succeeds exactly when every line of the input holds a digit, and the result is at most 99 per line |
| Calibration.Part1Append | day1/src/main.rs:2-13 | for an input ending at a line break, `part1` of the input followed by more text is the sum of both results |
| Calibration.ExampleLines | day1/src/main.rs:26 | the example input splits into its four lines |
| Calibration.ExampleLine1 | day1/src/main.rs:26 | `1abc2` is worth 12 |
| Calibration.ExampleLine2 | day1/src/main.rs:26 | `pqr3stu8vwx` is worth 38 |
| Calibration.ExampleLine3 | day1/src/main.rs:26 | `a1b2c3d4e5f` is worth 15 |
| Calibration.ExampleLine4 | day1/src/main.rs:26 | `treb7uchet` is worth 77 |
| Calibration.Part1Example | day1/src/main.rs:24-30 | the example input gives 142 |

## Left out

- `main` (day1/src/main.rs:15-18) is not modelled. It reads a file built into the program and prints the result, so it is I/O only.
- The `#[cfg(test)]` harness is not modelled. Its test vector appears as `Calibration.Part1Example`.
- `Debug` derives are not modelled: they only format output.
- Lifetimes of `Find<'a>` are not modelled. `Partial` carries the subtree value instead of a reference.
- Trie.Insert: the program updates the tree in place through `&mut self` and `iter_mut`. The model returns the updated tree as a new value. The tree has a single owner, so no other reference can observe the difference.
- Calibration.Part1: the result is an unbounded `nat`, without `u32` overflow. An overflow needs more than 43 million lines. It would panic in a debug build and wrap around in a release build.
- Calibration.IsDigit: `char::is_digit(10)` and `to_digit(10)` are modelled on ASCII `'0'`..`'9'`. These are the only characters for which they accept radix 10.
- Calibration.Lines: `str::lines` also strips a `'\r'` before each `'\n'`. The model splits on `'\n'` only.
- Trie.BuildPartialNotRoot: it requires words without `'*'`. A word containing the sentinel letter would make `is_root` true on an inner node, and nothing in the program rules that out.
- The trie has no caller in these files. No scanner over the input that uses it is modelled.
