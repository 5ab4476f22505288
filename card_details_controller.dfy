/**
 * CardDetailsController.ParseCardDetails: turns the text recognised on a card
 * into a CardDetails record, one line at a time.
 *
 * The specification is a left fold: Classify says which of the three branches
 * a line takes, Step says what that branch does to the record's value, and
 * ParseLines applies Step to the lines in order. The methods are the
 * imperative parser, proved to follow the fold.
 */
module CardParsing {
  import opened Wrappers
  import opened Strings
  import opened Int32Text
  import opened Models

  /** The branch a line takes, with what it stores. */
  datatype LineKind =
    | NumberLine(number: string)
    | ExpiryLine(expiry: string)
    | PersonLine(key: int, name: string)
    | Ignored

  /** First branch: the trimmed line is all digits (vacuously so when it is blank). */
  predicate IsNumberLine(line: string) {
    AllDigits(Trim(line))
  }

  /** Second branch's test: the lower-cased line contains "expiry". */
  predicate MentionsExpiry(line: string) {
    Contains(ToLower(line), "expiry")
  }

  /** A People entry to write: the key and the name stored under it. */
  datatype Person = Person(key: int, name: string)

  /**
   * Third branch: split on ' '; with at least two parts and a last part that
   * parses as an integer, the other parts re-joined are the name for that key.
   */
  function PersonEntry(line: string): Option<Person> {
    var parts := Split(line, ' ');
    if |parts| >= 2 then
      match TryParse(Last(parts))
      case Some(n) => Some(Person(n, Join(parts[..|parts| - 1], ' ')))
      case None => None
    else None
  }

  /** The if / else if / else of the loop body, as a value. */
  function Classify(line: string): LineKind {
    var trimmed := Trim(line);
    if AllDigits(trimmed) then NumberLine(trimmed)
    else if MentionsExpiry(line) then ExpiryLine(Trim(Last(Split(line, ':'))))
    else
      match PersonEntry(line)
      case Some(p) => PersonLine(p.key, p.name)
      case None => Ignored
  }

  /** What a line of the given kind does to the record's value. */
  function Apply(card: CardValue, kind: LineKind): CardValue {
    match kind
    case NumberLine(n) => card.(number := Some(n))
    case ExpiryLine(e) => card.(expiry := Some(e))
    case PersonLine(k, name) => card.(people := card.people[k := name])
    case Ignored => card
  }

  /** What one line does to the record's value. */
  function Step(card: CardValue, line: string): CardValue {
    Apply(card, Classify(line))
  }

  /** The value after lines of these kinds, in order, starting from a fresh record. */
  function Fold(kinds: seq<LineKind>): CardValue {
    if kinds == [] then EmptyCard
    else Apply(Fold(kinds[..|kinds| - 1]), Last(kinds))
  }

  /** The kind of every line, in order. */
  function Kinds(lines: seq<string>): (ks: seq<LineKind>)
    ensures |ks| == |lines|
  {
    if lines == [] then [] else Kinds(lines[..|lines| - 1]) + [Classify(Last(lines))]
  }

  /** The i-th kind is the class of the i-th line. */
  lemma {:induction false} KindsAt(lines: seq<string>, i: int)
    requires 0 <= i < |lines|
    ensures Kinds(lines)[i] == Classify(lines[i])
  {
    if i < |lines| - 1 {
      KindsAt(lines[..|lines| - 1], i);
    }
  }

  /** The value after the lines, in order, starting from a fresh record. */
  function ParseLines(lines: seq<string>): CardValue {
    Fold(Kinds(lines))
  }

  /** The lines of the text are its pieces between '\n' characters. */
  function Lines(text: string): seq<string> {
    Split(text, '\n')
  }

  /** The value ParseCardDetails returns for the text. */
  function ParseText(text: string): CardValue {
    ParseLines(Lines(text))
  }

  /** Parsing one more line applies one more Step. */
  lemma ParseLinesSnoc(lines: seq<string>, i: int)
    requires 0 <= i < |lines|
    ensures ParseLines(lines[..i + 1]) == Step(ParseLines(lines[..i]), lines[i])
  {
    var init := lines[..i + 1];
    assert init[..i] == lines[..i];
    var ks := Kinds(init);
    assert ks == Kinds(lines[..i]) + [Classify(lines[i])];
    assert ks[..i] == Kinds(lines[..i]);
  }

  /**
   * The third branch of the loop body: a qualifying line writes one entry of
   * the People table, any other line leaves it as it was.
   */
  method AddPerson(people: Dictionary<int, string>, line: string)
    modifies people
    ensures PersonEntry(line).Some? ==>
              people.Entries == old(people.Entries)[PersonEntry(line).value.key := PersonEntry(line).value.name]
    ensures PersonEntry(line).None? ==> people.Entries == old(people.Entries)
  {
    var parts := Split(line, ' ');
    if |parts| >= 2 {
      var number := TryParse(Last(parts));
      if number.Some? {
        var name := Join(parts[..|parts| - 1], ' ');
        assert PersonEntry(line) == Some(Person(number.value, name));
        people.Set(number.value, name);
      } else {
        assert PersonEntry(line) == None;
      }
    } else {
      assert PersonEntry(line) == None;
    }
  }

  /** A line whose trim is all digits stores that trim in Number. */
  lemma StepNumberLine(card: CardValue, line: string)
    requires AllDigits(Trim(line))
    ensures Step(card, line) == card.(number := Some(Trim(line)))
  {
  }

  /** Otherwise a line that mentions "expiry" stores its trimmed last ':'-piece in Expiry. */
  lemma StepExpiryLine(card: CardValue, line: string)
    requires !AllDigits(Trim(line)) && MentionsExpiry(line)
    ensures Step(card, line) == card.(expiry := Some(Trim(Last(Split(line, ':')))))
  {
  }

  /** Any other line writes its person entry, if it has one, and nothing else. */
  lemma StepOtherLine(card: CardValue, line: string)
    requires !AllDigits(Trim(line)) && !MentionsExpiry(line)
    ensures PersonEntry(line).Some? ==>
              Step(card, line) == card.(people := card.people[PersonEntry(line).value.key := PersonEntry(line).value.name])
    ensures PersonEntry(line).None? ==> Step(card, line) == card
  {
  }

  /**
   * The body of the foreach loop: exactly one of the three branches runs, and
   * only Number, Expiry or one entry of the People table changes.
   */
  method ApplyLine(card: CardDetails, line: string)
    modifies card, card.People
    ensures card.People == old(card.People)
    ensures card.ImageFile == old(card.ImageFile)
    ensures card.Value() == Step(old(card.Value()), line)
  {
    ghost var before := card.Value();
    var trimmed := Trim(line);
    if AllDigits(trimmed) {
      card.Number := Some(trimmed);
      assert card.Value() == before.(number := Some(trimmed));
      StepNumberLine(before, line);
    } else if MentionsExpiry(line) {
      var expiry := Trim(Last(Split(line, ':')));
      card.Expiry := Some(expiry);
      assert card.Value() == before.(expiry := Some(expiry));
      StepExpiryLine(before, line);
    } else {
      ghost var entry := PersonEntry(line);
      AddPerson(card.People, line);
      if entry.Some? {
        assert card.Value() == before.(people := before.people[entry.value.key := entry.value.name]);
      } else {
        assert card.Value() == before;
      }
      StepOtherLine(before, line);
    }
  }

  /**
   * ParseCardDetails: a fresh record, then every line of the text visited once,
   * in order. The People table is the one the constructor made, and ImageFile
   * is never assigned.
   */
  method ParseCardDetails(text: string) returns (card: CardDetails)
    ensures fresh(card) && fresh(card.People)
    ensures card.Value() == ParseText(text)
    ensures card.ImageFile == None
  {
    card := new CardDetails();
    var lines := Split(text, '\n');
    ghost var people := card.People;
    for i := 0 to |lines|
      invariant card.People == people && fresh(card) && fresh(people)
      invariant card.ImageFile == None
      invariant card.Value() == ParseLines(lines[..i])
    {
      ApplyLine(card, lines[i]);
      ParseLinesSnoc(lines, i);
    }
    assert lines[..|lines|] == lines;
  }
}
