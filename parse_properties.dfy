/**
 * What ParseCardDetails promises, stated independently of the fold that
 * defines it: which line each field comes from, what a single line stores,
 * and the consequences for blank lines.
 */
module ParseProperties {
  import opened Wrappers
  import opened Strings
  import opened Int32Text
  import opened Models
  import opened CardParsing

  /** The line reaches the expiry branch. */
  predicate IsExpiryLine(line: string) {
    !IsNumberLine(line) && MentionsExpiry(line)
  }

  /** A line of this kind writes the People entry for key k. */
  predicate KindWritesKey(kind: LineKind, k: int) {
    kind.PersonLine? && kind.key == k
  }

  /** The line writes the People entry for key k. */
  predicate WritesKey(line: string, k: int) {
    KindWritesKey(Classify(line), k)
  }

  // ---------------------------------------------------------------- one line

  /** The three branches are exclusive, and tried in the order of the if / else if / else chain. */
  lemma BranchesExclusive(line: string)
    ensures Classify(line).NumberLine? <==> IsNumberLine(line)
    ensures Classify(line).ExpiryLine? <==> IsExpiryLine(line)
    ensures Classify(line).PersonLine? ==> !IsNumberLine(line) && !MentionsExpiry(line)
    ensures Classify(line).NumberLine? ==> Classify(line).number == Trim(line)
  {
  }

  /** A number line changes only Number; an expiry line changes only Expiry. */
  lemma StepFrame(card: CardValue, line: string)
    ensures IsNumberLine(line) ==> Step(card, line) == card.(number := Some(Trim(line)))
    ensures MentionsExpiry(line) ==> Step(card, line).people == card.people
    ensures Step(card, line).imageFile == card.imageFile
    ensures forall k :: !WritesKey(line, k) ==>
              (k in Step(card, line).people <==> k in card.people)
              && (k in card.people ==> Step(card, line).people[k] == card.people[k])
  {
  }

  /** Digits contain no white space, so a string of digits is its own trim. */
  lemma DigitsAreTrimmed(n: string)
    requires AllDigits(n)
    ensures forall k :: 0 <= k < |n| ==> !IsWhiteSpace(n[k])
    ensures Trim(n) == n
  {
    if n != [] {
      TrimKeepsUntrimmable(n, AnyWhiteSpace);
    }
  }

  /** A blank or white-space-only line trims to "", which is vacuously all digits. */
  lemma BlankLineSetsEmptyNumber(line: string)
    requires AllWith(line, AnyWhiteSpace)
    ensures Classify(line) == NumberLine("")
  {
    TrimStartAllWith(line, AnyWhiteSpace);
  }

  /** The expiry test ignores case: any spelling that lower-cases to "expiry" counts. */
  lemma MentionsExpiryAnyCase(pre: string, word: string, post: string)
    requires ToLower(word) == "expiry"
    ensures MentionsExpiry(pre + word + post)
  {
    ToLowerAppend(pre, word);
    ToLowerAppend(pre + word, post);
    ToLowerAt(pre);
    var lower := ToLower(pre + word + post);
    assert lower == ToLower(pre) + "expiry" + ToLower(post);
    assert OccursAt(lower, "expiry", |pre|);
  }

  /**
   * An expiry line stores the trimmed text after its last ':', or the whole
   * trimmed line when it has no ':'.
   */
  lemma ExpiryLineValue(line: string)
    requires IsExpiryLine(line)
    ensures Classify(line).ExpiryLine?
    ensures ':' !in line ==> Classify(line).expiry == Trim(line)
    ensures forall i :: 0 <= i < |line| && line[i] == ':' && ':' !in line[i + 1..] ==>
              Classify(line).expiry == Trim(line[i + 1..])
  {
    if ':' !in line {
      LastPieceWithoutSeparator(line, ':');
    }
    forall i | 0 <= i < |line| && line[i] == ':' && ':' !in line[i + 1..]
      ensures Classify(line).expiry == Trim(line[i + 1..])
    {
      LastPieceAfterLastSeparator(line, ':', i);
    }
  }

  /**
   * The line is name + " " + last, where last holds no ' ' and parses as k:
   * a line the third branch turns into People[k] = name.
   */
  predicate IsPersonRecord(line: string, k: int, name: string) {
    && |name| < |line|
    && line == name + [' '] + line[|name| + 1..]
    && ' ' !in line[|name| + 1..]
    && TryParse(line[|name| + 1..]) == Some(k)
  }

  /**
   * A person entry is the line cut at its last ' ': the part after it holds
   * no ' ' and parses as the key, the part before it is the name, and
   * name + " " + last part is the line again.
   */
  lemma PersonEntryMeaning(line: string)
    requires PersonEntry(line).Some?
    ensures IsPersonRecord(line, PersonEntry(line).value.key, PersonEntry(line).value.name)
  {
    var parts := Split(line, ' ');
    var name := Join(parts[..|parts| - 1], ' ');
    assert PersonEntry(line) == Some(Person(TryParse(Last(parts)).value, name));
    JoinSplit(line, ' ');
    JoinAllButLast(parts, ' ');
    LastPieceIsSuffix(line, ' ');
    assert line[|name| + 1..] == Last(parts);
  }

  /** The person entry of a line is (k, name) exactly when the line is name + " " + k's text. */
  lemma PersonEntryIff(line: string, k: int, name: string)
    ensures PersonEntry(line) == Some(Person(k, name)) <==> IsPersonRecord(line, k, name)
  {
    if PersonEntry(line) == Some(Person(k, name)) {
      PersonEntryMeaning(line);
    }
    if IsPersonRecord(line, k, name) {
      PersonEntryFromParts(name, line[|name| + 1..], k);
    }
  }

  /**
   * A line writes no person entry exactly when it has no ' ' or the text after
   * its last ' ' does not parse as an integer.
   */
  lemma PersonEntryAbsent(line: string)
    ensures PersonEntry(line).None? <==>
              ' ' !in line
              || forall i :: 0 <= i < |line| && line[i] == ' ' && ' ' !in line[i + 1..] ==>
                   TryParse(line[i + 1..]).None?
  {
    var parts := Split(line, ' ');
    SplitSeveralIff(line, ' ');
    if ' ' in line {
      LastPieceIsSuffix(line, ' ');
      var p := Last(parts);
      var i := |line| - |p| - 1;
      assert line[i + 1..] == p;
      forall j | 0 <= j < |line| && line[j] == ' ' && ' ' !in line[j + 1..]
        ensures line[j + 1..] == p
      {
        LastPieceAfterLastSeparator(line, ' ', j);
      }
    }
  }

  /**
   * Conversely, a name, a space and a space-free last part that parses as n
   * make a person entry for key n with exactly that name.
   */
  lemma PersonEntryFromParts(name: string, last: string, n: int)
    requires ' ' !in last && TryParse(last) == Some(n)
    ensures PersonEntry(name + [' '] + last) == Some(Person(n, name))
  {
    var line := name + [' '] + last;
    var parts := Split(name, ' ') + [last];
    assert parts[..|parts| - 1] == Split(name, ' ');
    JoinSplit(name, ' ');
    JoinAllButLast(parts, ' ');
    SplitPiecesWithoutSeparator(name, ' ');
    SplitJoin(parts, ' ');
  }

  /**
   * A person line that ends in a number and the '\r' of a CRLF line ending
   * (the text is split on '\n' alone) still writes that number's key.
   */
  lemma CarriageReturnTolerated(name: string, number: string, n: int)
    requires ' ' !in number && TryParse(number) == Some(n)
    ensures PersonEntry(name + " " + number + "\r") == Some(Person(n, name))
  {
    var last := number + "\r";
    TryParseIgnoresCarriageReturn(number);
    assert ' ' !in last;
    assert name + " " + number + "\r" == name + [' '] + last;
    PersonEntryFromParts(name, last, n);
  }

  /** The key is the trailing integer: "Jane Doe 7" stores People[7] = "Jane Doe". */
  lemma TrailingIntegerIsTheKey()
    ensures PersonEntry("Jane Doe 7") == Some(Person(7, "Jane Doe"))
  {
    TrimKeepsUntrimmable("7", NumberWhite);
    assert DigitsValue("7") == 7;
    assert "Jane Doe 7" == "Jane Doe" + [' '] + "7";
    PersonEntryFromParts("Jane Doe", "7", 7);
  }

  /** A leading integer is not a key: "7 Jane Doe" ends in a word and stores nothing. */
  lemma LeadingIntegerIsNoKey()
    ensures PersonEntry("7 Jane Doe") == None
  {
    var line := "7 Jane Doe";
    assert line[6] == ' ' && line[7..] == "Doe";
    LastPieceAfterLastSeparator(line, ' ', 6);
    SplitSeveralIff(line, ' ');
    TrimKeepsUntrimmable("Doe", NumberWhite);
    assert !IsDigit('D');
  }

  // ---------------------------------------------------------------- the fold

  /** The last number line decides Number. */
  lemma {:induction false} FoldNumberLast(ks: seq<LineKind>, i: int)
    requires 0 <= i < |ks| && ks[i].NumberLine?
    requires forall j :: i < j < |ks| ==> !ks[j].NumberLine?
    ensures Fold(ks).number == Some(ks[i].number)
  {
    if i < |ks| - 1 {
      FoldNumberLast(ks[..|ks| - 1], i);
    }
  }

  /** Number is null exactly when there is no number line, and otherwise comes from one. */
  lemma {:induction false} FoldNumberSource(ks: seq<LineKind>)
    ensures Fold(ks).number == None <==> forall i :: 0 <= i < |ks| ==> !ks[i].NumberLine?
    ensures Fold(ks).number.Some? ==>
              exists i :: 0 <= i < |ks| && ks[i] == NumberLine(Fold(ks).number.value)
  {
    if ks != [] {
      var init := ks[..|ks| - 1];
      FoldNumberSource(init);
      assert forall i :: 0 <= i < |init| ==> init[i] == ks[i];
      if !Last(ks).NumberLine? && Fold(ks).number.Some? {
        var i :| 0 <= i < |init| && init[i] == NumberLine(Fold(ks).number.value);
        assert ks[i] == init[i];
      }
    }
  }

  /** The last expiry line decides Expiry. */
  lemma {:induction false} FoldExpiryLast(ks: seq<LineKind>, i: int)
    requires 0 <= i < |ks| && ks[i].ExpiryLine?
    requires forall j :: i < j < |ks| ==> !ks[j].ExpiryLine?
    ensures Fold(ks).expiry == Some(ks[i].expiry)
  {
    if i < |ks| - 1 {
      FoldExpiryLast(ks[..|ks| - 1], i);
    }
  }

  /** Expiry is null exactly when there is no expiry line. */
  lemma {:induction false} FoldExpiryAbsent(ks: seq<LineKind>)
    ensures Fold(ks).expiry == None <==> forall i :: 0 <= i < |ks| ==> !ks[i].ExpiryLine?
  {
    if ks != [] {
      var init := ks[..|ks| - 1];
      FoldExpiryAbsent(init);
      assert forall i :: 0 <= i < |init| ==> init[i] == ks[i];
    }
  }

  /** The last person line for a key decides that key's name. */
  lemma {:induction false} FoldPeopleLast(ks: seq<LineKind>, i: int, k: int)
    requires 0 <= i < |ks| && KindWritesKey(ks[i], k)
    requires forall j :: i < j < |ks| ==> !KindWritesKey(ks[j], k)
    ensures k in Fold(ks).people && Fold(ks).people[k] == ks[i].name
  {
    if i < |ks| - 1 {
      FoldPeopleLast(ks[..|ks| - 1], i, k);
      assert !KindWritesKey(Last(ks), k);
    }
  }

  /** A key is in People exactly when some person line writes it. */
  lemma {:induction false} FoldPeopleKeys(ks: seq<LineKind>, k: int)
    ensures k in Fold(ks).people <==> exists i :: 0 <= i < |ks| && KindWritesKey(ks[i], k)
  {
    if ks != [] {
      var init := ks[..|ks| - 1];
      FoldPeopleKeys(init, k);
      if k in Fold(ks).people && !KindWritesKey(Last(ks), k) {
        var i :| 0 <= i < |init| && KindWritesKey(init[i], k);
        assert KindWritesKey(ks[i], k);
      }
      if exists i :: 0 <= i < |ks| && KindWritesKey(ks[i], k) {
        var i :| 0 <= i < |ks| && KindWritesKey(ks[i], k);
        if i < |init| {
          assert KindWritesKey(init[i], k);
        }
      }
    }
  }

  /** Every People entry was written by some person line with that key and that name. */
  lemma {:induction false} FoldPeopleSource(ks: seq<LineKind>, k: int)
    requires k in Fold(ks).people
    ensures exists i :: 0 <= i < |ks| && ks[i] == PersonLine(k, Fold(ks).people[k])
  {
    var init := ks[..|ks| - 1];
    if Last(ks) == PersonLine(k, Fold(ks).people[k]) {
      assert ks[|ks| - 1] == Last(ks);
    } else {
      assert Fold(ks).people[k] == Fold(init).people[k];
      FoldPeopleSource(init, k);
      var i :| 0 <= i < |init| && init[i] == PersonLine(k, Fold(init).people[k]);
      assert ks[i] == init[i];
    }
  }

  /** No kind of line touches ImageFile. */
  lemma {:induction false} FoldImageFile(ks: seq<LineKind>)
    ensures Fold(ks).imageFile == None
  {
    if ks != [] {
      FoldImageFile(ks[..|ks| - 1]);
    }
  }

  // ---------------------------------------------------------------- whole text

  /** The kind of the i-th line, read back in terms of the line itself. */
  lemma KindOfLine(lines: seq<string>, i: int)
    requires 0 <= i < |lines|
    ensures Kinds(lines)[i] == Classify(lines[i])
    ensures Kinds(lines)[i].NumberLine? <==> IsNumberLine(lines[i])
    ensures Kinds(lines)[i].NumberLine? ==> Kinds(lines)[i].number == Trim(lines[i])
    ensures Kinds(lines)[i].ExpiryLine? <==> IsExpiryLine(lines[i])
  {
    KindsAt(lines, i);
    BranchesExclusive(lines[i]);
  }

  /** Number comes from the last line whose trim is all digits; later lines overwrite earlier ones. */
  lemma NumberLastWins(lines: seq<string>, i: int)
    requires 0 <= i < |lines| && IsNumberLine(lines[i])
    requires forall j :: i < j < |lines| ==> !IsNumberLine(lines[j])
    ensures ParseLines(lines).number == Some(Trim(lines[i]))
  {
    var ks := Kinds(lines);
    KindOfLine(lines, i);
    forall j | i < j < |lines| ensures !ks[j].NumberLine? {
      KindOfLine(lines, j);
    }
    FoldNumberLast(ks, i);
  }

  /** Number stays null exactly when no line's trim is all digits. */
  lemma NumberAbsent(lines: seq<string>)
    ensures ParseLines(lines).number == None <==>
            forall i :: 0 <= i < |lines| ==> !IsNumberLine(lines[i])
  {
    var ks := Kinds(lines);
    FoldNumberSource(ks);
    forall i | 0 <= i < |lines| ensures ks[i].NumberLine? <==> IsNumberLine(lines[i]) {
      KindOfLine(lines, i);
    }
  }

  /** A stored Number is all digits, with no white space anywhere, so it is its own trim. */
  lemma NumberIsDigits(lines: seq<string>)
    ensures ParseLines(lines).number.Some? ==>
              var n := ParseLines(lines).number.value;
              && AllDigits(n)
              && (forall k :: 0 <= k < |n| ==> !IsWhiteSpace(n[k]))
              && Trim(n) == n
  {
    var ks := Kinds(lines);
    FoldNumberSource(ks);
    if Fold(ks).number.Some? {
      var n := Fold(ks).number.value;
      var i :| 0 <= i < |ks| && ks[i] == NumberLine(n);
      KindOfLine(lines, i);
      assert n == Trim(lines[i]) && IsNumberLine(lines[i]);
      DigitsAreTrimmed(n);
    }
  }

  /** Parsing the empty text sees one empty line, so Number is "" and nothing else is set. */
  lemma EmptyTextParse()
    ensures ParseText("") == EmptyCard.(number := Some(""))
  {
    BlankLineSetsEmptyNumber("");
    assert Lines("") == [""];
    assert [""][..0] == [];
    assert Kinds([""]) == [NumberLine("")];
    assert Kinds([""])[..0] == [];
  }

  /** Text ending in '\n' ends with an empty line, which leaves Number == "". */
  lemma TrailingNewlineEmptiesNumber(text: string)
    requires text != [] && text[|text| - 1] == '\n'
    ensures ParseText(text).number == Some("")
  {
    var lines := Lines(text);
    LastPieceAfterFinalSeparator(text, '\n');
    BlankLineSetsEmptyNumber(Last(lines));
    NumberLastWins(lines, |lines| - 1);
  }

  /** Expiry comes from the last line that reached the expiry branch, and is never null after one. */
  lemma ExpiryLastWins(lines: seq<string>, i: int)
    requires 0 <= i < |lines| && IsExpiryLine(lines[i])
    requires forall j :: i < j < |lines| ==> !IsExpiryLine(lines[j])
    ensures ParseLines(lines).expiry == Some(Classify(lines[i]).expiry)
  {
    var ks := Kinds(lines);
    KindOfLine(lines, i);
    forall j | i < j < |lines| ensures !ks[j].ExpiryLine? {
      KindOfLine(lines, j);
    }
    FoldExpiryLast(ks, i);
  }

  /** Expiry stays null exactly when no line reaches the expiry branch. */
  lemma ExpiryAbsent(lines: seq<string>)
    ensures ParseLines(lines).expiry == None <==>
            forall i :: 0 <= i < |lines| ==> !IsExpiryLine(lines[i])
  {
    var ks := Kinds(lines);
    FoldExpiryAbsent(ks);
    forall i | 0 <= i < |lines| ensures ks[i].ExpiryLine? <==> IsExpiryLine(lines[i]) {
      KindOfLine(lines, i);
    }
  }

  /** For a key written by several lines, the last of them decides the name. */
  lemma PeopleLastWins(lines: seq<string>, i: int, k: int)
    requires 0 <= i < |lines| && WritesKey(lines[i], k)
    requires forall j :: i < j < |lines| ==> !WritesKey(lines[j], k)
    ensures k in ParseLines(lines).people
    ensures ParseLines(lines).people[k] == Classify(lines[i]).name
  {
    var ks := Kinds(lines);
    KindsAt(lines, i);
    forall j | i < j < |lines| ensures !KindWritesKey(ks[j], k) {
      KindsAt(lines, j);
    }
    FoldPeopleLast(ks, i, k);
  }

  /** The keys of People are exactly the trailing integers of the person lines. */
  lemma PeopleKeys(lines: seq<string>, k: int)
    ensures k in ParseLines(lines).people <==>
            exists i :: 0 <= i < |lines| && WritesKey(lines[i], k)
  {
    var ks := Kinds(lines);
    FoldPeopleKeys(ks, k);
    forall i | 0 <= i < |lines| ensures KindWritesKey(ks[i], k) <==> WritesKey(lines[i], k) {
      KindsAt(lines, i);
    }
  }

  /**
   * Every People entry comes from a line that took the third branch and reads
   * name + " " + key: the value and the key's text, rejoined, give the line back.
   */
  lemma PeopleFromLines(lines: seq<string>, k: int)
    requires k in ParseLines(lines).people
    ensures exists i :: 0 <= i < |lines| && !IsNumberLine(lines[i]) && !MentionsExpiry(lines[i])
                        && IsPersonRecord(lines[i], k, ParseLines(lines).people[k])
  {
    var ks := Kinds(lines);
    FoldPeopleSource(ks, k);
    var i :| 0 <= i < |ks| && ks[i] == PersonLine(k, Fold(ks).people[k]);
    KindsAt(lines, i);
    BranchesExclusive(lines[i]);
    var entry := PersonEntry(lines[i]);
    assert entry == Some(Person(k, Fold(ks).people[k]));
    PersonEntryMeaning(lines[i]);
  }

  /** The parser never assigns ImageFile, which stays null. */
  lemma ImageFileUntouched(lines: seq<string>)
    ensures ParseLines(lines).imageFile == None
  {
    FoldImageFile(Kinds(lines));
  }
}
