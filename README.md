# CardDetailsAPI: the card-text parser

CardDetailsAPI is a small web service. It takes a base64 image, runs OCR on
it, and turns the recognised text into a `CardDetails` record. The record has
four properties, and the parser fills three of them: a card `Number`, an
`Expiry` and a `People` table from integers to names. The fourth, `ImageFile`,
is left null. This project models the part that has real logic:
`CardDetailsController.ParseCardDetails` and the `CardDetails` record it fills
in. The model proves what that parser does with every line of text.

The parser splits the text on `'\n'` and keeps empty pieces. It visits each
piece once, in order, and takes exactly one of three branches:

1. **Number.** The trimmed line is all digits, so `Number` becomes that trimmed line.
2. **Expiry.** Otherwise, the lower-cased line contains `"expiry"`, so
   `Expiry` becomes the trimmed text after the line's last `':'`.
3. **Person.** Otherwise, the line is split on `' '`. If it has two or more
   parts and the last one parses as an `int`, the other parts, re-joined with
   `' '`, are stored in `People` under that integer.

Every field is last-match-wins. A blank line's trim is empty, and an empty
string is vacuously "all digits", so a blank line sets `Number` to `""`. A
text that ends in `'\n'` therefore always ends with `Number == ""`.

The key of a `People` entry is the trailing integer of its line. So
`"Jane Doe 7"` stores `People[7] = "Jane Doe"`, while `"7 Jane Doe"` stores
nothing (`ParseProperties.TrailingIntegerIsTheKey`,
`ParseProperties.LeadingIntegerIsNoKey`). `Number` is the trimmed line exactly
as it stands: it is neither truncated nor normalised.

## Layout

- `wrappers.dfy`: module `Wrappers`, with `Option`. It stands in for a C# string that may be null.
- `strings.dfy`: module `Strings`, with the .NET string operations the parser
  calls: `Char.IsWhiteSpace`, `Char.IsDigit` (ASCII), `String.Trim`,
  `String.ToLower` (ASCII), ordinal `String.Contains`, `String.Split(char)`,
  `String.Join(char, …)` and `Enumerable.Last`. Lemmas state the laws of
  `Trim`, `ToLower` and `Split`/`Join`/`Last`.
- `int32.dfy`: module `Int32Text`, with `int.TryParse` under the default
  `NumberStyles.Integer`. That means optional white space (space and `'\t'`
  through `'\r'`) around an optional `+`/`-` and one or more digits, with the
  value within Int32 range.
- `card_details.dfy`: module `Models`, with the `CardDetails` class and the
  `Dictionary` class that stands in for its mutable `People` table.
- `card_details_controller.dfy`: module `CardParsing`. `Classify`, `Step` and
  `ParseLines` specify the parser as a left fold over the lines. The
  imperative `ParseCardDetails`, `ApplyLine` and `AddPerson` are proved to
  follow it.
- `parse_properties.dfy`: module `ParseProperties`, with the properties of
  the parse: single-line facts, fold facts and whole-text facts.

## Model

| member | source | states |
|---|---|---|
| Models.Dictionary.constructor | CardDetailsAPI/Models/CardDetails.cs:14 | A new `Dictionary<int, string>` has no entries. |
| Models.Dictionary.Set | CardDetailsAPI/Controllers/CardDetailsController.cs:153 | The indexer setter maps the key to the value. It adds the key or overwrites its old value, and every other entry stays as it was. |
| Models.CardDetails.constructor | CardDetailsAPI/Models/CardDetails.cs:6-15 | A new record has `Number`, `Expiry` and `ImageFile` null. Its `People` is a freshly allocated, empty table. |
| CardParsing.KindsAt | CardDetailsAPI/Controllers/CardDetailsController.cs:137-139 | The i-th entry of the fold's input is the branch taken by the i-th line, so the lines are classified one for one, in order. |
| CardParsing.ParseLinesSnoc | CardDetailsAPI/Controllers/CardDetailsController.cs:137-156 | Parsing one more line applies exactly one more step to the record produced by the earlier lines. |
| CardParsing.StepNumberLine | CardDetailsAPI/Controllers/CardDetailsController.cs:139-142 | A line whose trim is all digits sets `Number` to that trim and changes nothing else. |
| CardParsing.StepExpiryLine | CardDetailsAPI/Controllers/CardDetailsController.cs:143-146 | Otherwise, a line that contains `"expiry"` sets `Expiry` to the trimmed last `':'`-piece and changes nothing else. |
| CardParsing.StepOtherLine | CardDetailsAPI/Controllers/CardDetailsController.cs:147-155 | Any other line writes its person entry, if it has one, into `People` and changes nothing else. Without an entry, the record is unchanged. |
| CardParsing.AddPerson | CardDetailsAPI/Controllers/CardDetailsController.cs:149-154 | The third branch writes exactly the entry `PersonEntry` gives for the line into the same table object. A line without an entry leaves the table as it was. |
| CardParsing.ApplyLine | CardDetailsAPI/Controllers/CardDetailsController.cs:139-155 | The loop body changes the record exactly as one `Step` on its old value does. It keeps the same `People` object and never touches `ImageFile`. |
| CardParsing.ParseCardDetails | CardDetailsAPI/Controllers/CardDetailsController.cs:131-159 | The method returns a fresh record, with a fresh `People` table, whose value is the fold of the steps over the `'\n'`-pieces of the text, in order. `ImageFile` stays null. It terminates and has no error path for any text. |
| Strings.TrimWith | CardDetailsAPI/Controllers/CardDetailsController.cs:139 | A trimmed string is no longer than the input and neither starts nor ends with a white-space character. |
| Strings.TrimStartFacts | CardDetailsAPI/Controllers/CardDetailsController.cs:139 | Trimming the front leaves a suffix. Only white space precedes it, and it does not start with white space. |
| Strings.TrimEndFacts | CardDetailsAPI/Controllers/CardDetailsController.cs:139 | Trimming the back leaves a prefix. Only white space follows it, and it does not end with white space. |
| Strings.TrimWithIsSlice | CardDetailsAPI/Controllers/CardDetailsController.cs:139 | `Trim` returns a contiguous slice of the input, and only white-space characters lie outside it. |
| Strings.TrimKeepsUntrimmable | CardDetailsAPI/Controllers/CardDetailsController.cs:139 | A non-empty string that neither starts nor ends with white space is its own trim. |
| Strings.TrimStartAllWith | CardDetailsAPI/Controllers/CardDetailsController.cs:139 | A string made only of white space trims to the empty string. |
| Strings.TrimStartSkipsPrefix | CardDetailsAPI/Controllers/CardDetailsController.cs:139 | Leading white space added in front does not change the front trim. |
| Strings.TrimStartAppend | CardDetailsAPI/Controllers/CardDetailsController.cs:139 | When the front trim of s is not empty, appending to s appends the same text to its front trim. |
| Strings.TrimEndSkipsSuffix | CardDetailsAPI/Controllers/CardDetailsController.cs:139 | Trailing white space added at the end does not change the back trim. |
| Strings.TrimIgnoresSurroundingWith | CardDetailsAPI/Controllers/CardDetailsController.cs:139 | Surrounding a string with white space does not change its trim. |
| Strings.ToLowerAt | CardDetailsAPI/Controllers/CardDetailsController.cs:143 | Lower-casing keeps the length and lower-cases each character on its own. |
| Strings.ToLowerAppend | CardDetailsAPI/Controllers/CardDetailsController.cs:143 | Lower-casing distributes over concatenation. |
| Strings.Split | CardDetailsAPI/Controllers/CardDetailsController.cs:136 | `Split(char)` always returns at least one piece, so the empty text has one empty line. |
| Strings.SplitPiecesWithoutSeparator | CardDetailsAPI/Controllers/CardDetailsController.cs:136 | No piece of a split contains the separator. |
| Strings.JoinSplit | CardDetailsAPI/Controllers/CardDetailsController.cs:149-152 | Joining the pieces of a split with the same separator gives back the original string. |
| Strings.SplitWithoutSeparator | CardDetailsAPI/Controllers/CardDetailsController.cs:149 | A string without the separator splits into itself alone. |
| Strings.SplitAtFirstSeparator | CardDetailsAPI/Controllers/CardDetailsController.cs:149 | A separator-free head followed by the separator splits off as the first piece. |
| Strings.SplitJoin | CardDetailsAPI/Controllers/CardDetailsController.cs:149-152 | Splitting a join of separator-free parts gives back those parts. |
| Strings.JoinAllButLast | CardDetailsAPI/Controllers/CardDetailsController.cs:152 | The join of all parts is the join of all but the last, then the separator, then the last part. |
| Strings.LastPieceIsSuffix | CardDetailsAPI/Controllers/CardDetailsController.cs:145 | The last piece of a split is a separator-free suffix. Either it is the whole string or a separator precedes it. |
| Strings.LastPieceAfterLastSeparator | CardDetailsAPI/Controllers/CardDetailsController.cs:145 | The last piece is exactly the text after the last separator. |
| Strings.LastPieceWithoutSeparator | CardDetailsAPI/Controllers/CardDetailsController.cs:145 | Without a separator, the last piece is the whole string. |
| Strings.SplitSeveralIff | CardDetailsAPI/Controllers/CardDetailsController.cs:150 | A split has two or more pieces if and only if the separator occurs in the string. |
| Strings.LastPieceAfterFinalSeparator | CardDetailsAPI/Controllers/CardDetailsController.cs:136 | A string that ends in the separator has an empty last piece. |
| Int32Text.ParseSigned | CardDetailsAPI/Controllers/CardDetailsController.cs:150 | A parsed signed number is always within the Int32 range. |
| Int32Text.TryParse | CardDetailsAPI/Controllers/CardDetailsController.cs:150 | `int.TryParse` succeeds only with a value within the Int32 range. |
| Int32Text.TryParseToString | CardDetailsAPI/Controllers/CardDetailsController.cs:150 | Every Int32, printed in decimal, parses back to itself, so every such value can be a `People` key. |
| Int32Text.TryParseIgnoresSurroundingWhite | CardDetailsAPI/Controllers/CardDetailsController.cs:150 | White space (space, `'\t'`..`'\r'`) around the number does not change the parse. |
| Int32Text.TryParseIgnoresCarriageReturn | CardDetailsAPI/Controllers/CardDetailsController.cs:150 | A trailing `'\r'`, as left by a CRLF line end, does not change the parse. |
| ParseProperties.BranchesExclusive | CardDetailsAPI/Controllers/CardDetailsController.cs:139-155 | Each line takes exactly one branch, in the order of the if / else if / else chain. Number branch if and only if its trim is all digits. Expiry branch if and only if not that and it mentions "expiry". A person line is neither. |
| ParseProperties.StepFrame | CardDetailsAPI/Controllers/CardDetailsController.cs:139-155 | A number line changes only `Number`. An expiry line never changes `People`. No line touches `ImageFile`. A line touches no `People` key other than the one it writes. |
| ParseProperties.DigitsAreTrimmed | CardDetailsAPI/Controllers/CardDetailsController.cs:139-141 | A string of digits has no white space and is its own trim. |
| ParseProperties.BlankLineSetsEmptyNumber | CardDetailsAPI/Controllers/CardDetailsController.cs:139-141 | A blank or white-space-only line takes the number branch and stores `""`. |
| ParseProperties.MentionsExpiryAnyCase | CardDetailsAPI/Controllers/CardDetailsController.cs:143 | The expiry test ignores case: any spelling that lower-cases to "expiry", anywhere in the line, passes it. |
| ParseProperties.ExpiryLineValue | CardDetailsAPI/Controllers/CardDetailsController.cs:143-146 | An expiry line stores the trimmed text after its last `':'`. Without a `':'` it stores the whole trimmed line. |
| ParseProperties.PersonEntryMeaning | CardDetailsAPI/Controllers/CardDetailsController.cs:149-153 | A person entry (k, name) means the line is `name + " " + last`, where `last` has no `' '` and parses as k (the split/join round trip). |
| ParseProperties.PersonEntryIff | CardDetailsAPI/Controllers/CardDetailsController.cs:149-153 | A line's entry is (k, name) if and only if the line is `name + " " + last` with a space-free `last` that parses as k. |
| ParseProperties.PersonEntryAbsent | CardDetailsAPI/Controllers/CardDetailsController.cs:149-150 | A line has no person entry if and only if it has no `' '` or the text after its last `' '` does not parse as an integer. |
| ParseProperties.PersonEntryFromParts | CardDetailsAPI/Controllers/CardDetailsController.cs:149-153 | A name, a space, and a space-free part that parses as n give the entry (n, name). |
| ParseProperties.CarriageReturnTolerated | CardDetailsAPI/Controllers/CardDetailsController.cs:136-153 | A person line that ends in a number and `'\r'` still writes that number's key with the same name. The text is split on `'\n'` alone. |
| ParseProperties.TrailingIntegerIsTheKey | CardDetailsAPI/Controllers/CardDetailsController.cs:149-153 | `"Jane Doe 7"` yields the entry (7, "Jane Doe"). |
| ParseProperties.LeadingIntegerIsNoKey | CardDetailsAPI/Controllers/CardDetailsController.cs:149-150 | `"7 Jane Doe"` yields no entry, because its last part is a word. |
| ParseProperties.FoldNumberLast | CardDetailsAPI/Controllers/CardDetailsController.cs:139-141 | Over any sequence of line kinds, the last number line decides `Number`. |
| ParseProperties.FoldNumberSource | CardDetailsAPI/Controllers/CardDetailsController.cs:139-141 | `Number` is null if and only if no number line occurs. Otherwise its value is one that some number line stored. |
| ParseProperties.FoldExpiryLast | CardDetailsAPI/Controllers/CardDetailsController.cs:143-146 | The last expiry line decides `Expiry`. |
| ParseProperties.FoldExpiryAbsent | CardDetailsAPI/Controllers/CardDetailsController.cs:143-146 | `Expiry` is null if and only if no expiry line occurs. |
| ParseProperties.FoldPeopleLast | CardDetailsAPI/Controllers/CardDetailsController.cs:153 | The last person line for a key decides that key's name. |
| ParseProperties.FoldPeopleKeys | CardDetailsAPI/Controllers/CardDetailsController.cs:153 | A key is in `People` if and only if some person line writes it. |
| ParseProperties.FoldPeopleSource | CardDetailsAPI/Controllers/CardDetailsController.cs:153 | Every `People` entry is exactly the (key, name) of some person line. |
| ParseProperties.FoldImageFile | CardDetailsAPI/Models/CardDetails.cs:11 | No kind of line sets `ImageFile`. |
| ParseProperties.KindOfLine | CardDetailsAPI/Controllers/CardDetailsController.cs:137-146 | The i-th line's kind is a number line if and only if the line's trim is all digits, and then it stores that trim. It is an expiry line if and only if it reaches the expiry branch. |
| ParseProperties.NumberLastWins | CardDetailsAPI/Controllers/CardDetailsController.cs:137-141 | After parsing, `Number` is the trim of the last line whose trim is all digits. Later lines overwrite earlier ones. |
| ParseProperties.NumberAbsent | CardDetailsAPI/Controllers/CardDetailsController.cs:137-141 | `Number` is null if and only if no line's trim is all digits. |
| ParseProperties.NumberIsDigits | CardDetailsAPI/Controllers/CardDetailsController.cs:139-141 | A stored `Number` is all digits, contains no white space, and is its own trim. |
| ParseProperties.EmptyTextParse | CardDetailsAPI/Controllers/CardDetailsController.cs:136-141 | Parsing `""` gives `Number == ""`. Every other field keeps its initial value. |
| ParseProperties.TrailingNewlineEmptiesNumber | CardDetailsAPI/Controllers/CardDetailsController.cs:136-141 | Any text that ends in `'\n'` leaves `Number == ""`. |
| ParseProperties.ExpiryLastWins | CardDetailsAPI/Controllers/CardDetailsController.cs:143-146 | `Expiry` comes from the last line that reached the expiry branch. It is never null once such a line exists. |
| ParseProperties.ExpiryAbsent | CardDetailsAPI/Controllers/CardDetailsController.cs:143-146 | `Expiry` is null if and only if no line reaches the expiry branch. |
| ParseProperties.PeopleLastWins | CardDetailsAPI/Controllers/CardDetailsController.cs:149-153 | For a key written by several lines, the last of them decides the name. |
| ParseProperties.PeopleKeys | CardDetailsAPI/Controllers/CardDetailsController.cs:149-153 | The keys of `People` are exactly the trailing integers of the lines that took the person branch. |
| ParseProperties.PeopleFromLines | CardDetailsAPI/Controllers/CardDetailsController.cs:147-153 | Every `People` entry comes from a line that is neither a number line nor an expiry line and reads `value + " " + last`, where `last` parses as the key. |
| ParseProperties.ImageFileUntouched | CardDetailsAPI/Controllers/CardDetailsController.cs:131-158 | The parser never assigns `ImageFile`, so it stays null. |

## Left out

- The `ExtractCardDetails` HTTP endpoint (controller lines 18-48) is left out. Routing, status codes and the mapping of exceptions to status 500 are web-framework plumbing.
- Both `ExtractTextFromImage` overloads (controller lines 50-68 and 70-102) are left out. They call the Tesseract OCR engine and use memory streams and PNG encoding. The model takes their output, the recognised text, as the parser's input.
- `Base64ToBitmap` (controller lines 105-129) is left out. It is a thin wrapper over `Convert.FromBase64String` and `System.Drawing.Bitmap`.
- `String.ToLower` is culture-sensitive, and `Char.IsDigit` accepts every Unicode decimal digit. The model uses ASCII lower-casing and ASCII digits. So it does not capture, for example, the Turkish dotted/dotless I, or a line of Arabic-Indic digits taking the number branch.
- A null `text` argument, which makes `text.Split` throw `NullReferenceException`, is not modelled. A Dafny `string` is never null.
- `Int32Text.TryParse` does not accept the trailing `'\0'` characters that .NET's parser tolerates. It also does not accept culture-specific sign strings other than `+` and `-`.
- Strings are sequences of Unicode scalar values, not UTF-16 code units. This makes no difference to the parser, because every separator and white-space character it looks for is a single code unit.
- The `Dictionary` is modelled as a map held by a reference. Hash-table layout, capacity and enumeration order are not modelled.
