/** One pass of the loop in Project1Client.interact: how a line typed at the
    prompt is turned into quitting, an invalid choice, or a selected operation. */
module Selection {
  import opened Wrappers
  import opened JavaText
  import opened ClientHelpers
  import opened Operations

  /** What one input line leads to. `index` and `candidates` are 0-based
      positions in the registry. Ambiguous still selects `chosen`, the first
      candidate, after printing the candidates as a suggestion. */
  datatype Outcome =
    | Quit
    | Invalid
    | Selected(index: nat)
    | Ambiguous(candidates: seq<nat>, chosen: nat)

  /** The words that end the session, compared ignoring case. */
  const ExitWords: seq<string> := ["quit", "stop", "exit"]

  function IsExitWord(text: string): (r: bool)
    ensures text in ExitWords ==> r
    ensures r ==> |text| == 4
  {
    AnyEqualsIgnoreCase(text, ExitWords)
  }

  predicate Increasing(r: seq<nat>) {
    forall a, b :: 0 <= a < b < |r| ==> r[a] < r[b]
  }

  /** The positions whose flag is set, in order. */
  function Positions(hits: seq<bool>): (r: seq<nat>)
    ensures forall k :: k in r <==> 0 <= k < |hits| && hits[k]
    ensures Increasing(r)
    ensures forall a :: 0 <= a < |r| ==> r[a] < |hits|
  {
    if hits == [] then []
    else
      var n := |hits| - 1;
      var front := Positions(hits[..n]);
      assert forall k :: 0 <= k < n ==> hits[..n][k] == hits[k];
      if hits[n] then front + [n] else front
  }

  /** Which operations of the registry the text matches, position by position. */
  function MatchMask(reg: seq<Operation>, text: string): (h: seq<bool>)
    ensures |h| == |reg|
    ensures forall k :: 0 <= k < |reg| ==> (h[k] <==> reg[k].Matches(text))
  {
    seq(|reg|, k requires 0 <= k < |reg| => reg[k].Matches(text))
  }

  /** The stream filter over _operations: the positions of every operation the
      text matches, in registry order. */
  function Candidates(reg: seq<Operation>, text: string): (r: seq<nat>)
    ensures forall k :: k in r <==> 0 <= k < |reg| && reg[k].Matches(text)
    ensures Increasing(r)
    ensures forall a :: 0 <= a < |r| ==> r[a] < |reg|
  {
    Positions(MatchMask(reg, text))
  }

  /** The resolution step of interact for one raw input line. */
  function Resolve(reg: seq<Operation>, raw: string): (r: Outcome)
    ensures r.Selected? ==> r.index < |reg|
    ensures r.Ambiguous? ==>
      |r.candidates| > 1 && r.chosen == r.candidates[0] && r.chosen < |reg|
  {
    var uin := Trim(raw);
    if IsExitWord(uin) then Quit
    else
      match TryParseInteger(StripPunct(uin))
      case None =>
        var ops := Candidates(reg, uin);
        if |ops| == 0 then Invalid
        else if |ops| > 1 then Ambiguous(ops, ops[0])
        else Selected(ops[0])
      case Some(choice) =>
        if choice == 0 then Quit
        else if choice < 1 || choice > |reg| then Invalid
        else Selected(choice - 1)
  }

  /** The operation whose code would go to the host after this outcome, if any. */
  function SelectedOperation(reg: seq<Operation>, o: Outcome): (r: Option<Operation>)
    requires o.Selected? ==> o.index < |reg|
    requires o.Ambiguous? ==> o.chosen < |reg|
    ensures r.Some? <==> o.Selected? || o.Ambiguous?
    ensures o.Selected? ==> r == Some(reg[o.index])
    ensures o.Ambiguous? ==> r == Some(reg[o.chosen])
  {
    match o
    case Selected(i) => Some(reg[i])
    case Ambiguous(_, i) => Some(reg[i])
    case _ => None
  }

  /** The candidates' 1-based menu numbers, as String.valueOf(indexOf(o) + 1) writes them. */
  function MenuNumbers(candidates: seq<nat>): (r: seq<string>)
    ensures |r| == |candidates|
    ensures forall k :: 0 <= k < |r| ==> r[k] == NatToString(candidates[k] + 1)
  {
    if candidates == [] then []
    else [NatToString(candidates[0] + 1)] + MenuNumbers(candidates[1..])
  }

  /** The "Did you mean ...?" line printed for an ambiguous nickname: the
      candidates' menu numbers joined by orList. */
  function Suggestion(candidates: seq<nat>): (r: string)
    requires |candidates| > 0
    ensures |r| > 13 && r[..13] == "Did you mean " && r[|r| - 1] == '?'
  {
    "Did you mean " + OrList(MenuNumbers(candidates)) + "?"
  }

  // ---------------------------------------------------------------------------
  // Exit keywords and zero

  /** The session ends exactly when the trimmed line is an exit keyword or its
      punctuation-free text parses to zero; the nickname path never quits. */
  lemma {:induction false} QuitExactly(reg: seq<Operation>, raw: string)
    ensures Resolve(reg, raw) == Quit <==>
      IsExitWord(Trim(raw)) || TryParseInteger(StripPunct(Trim(raw))) == Some(0)
  {
  }

  /** The exit keywords are checked first: they quit whatever the registry
      holds, even a registry with "quit" among its nicknames. */
  lemma {:induction false} ExitWordQuits(reg: seq<Operation>, raw: string, k: nat)
    requires k < |ExitWords| && EqualsIgnoreCase(Trim(raw), ExitWords[k])
    ensures Resolve(reg, raw) == Quit
  {
  }

  /** Surrounding white space never changes the outcome. */
  lemma {:induction false} WhiteSpaceIgnored(reg: seq<Operation>, w1: string, raw: string, w2: string)
    requires AllTrimmable(w1) && AllTrimmable(w2)
    ensures Resolve(reg, w1 + raw + w2) == Resolve(reg, raw)
  {
    TrimPadding(w1, raw, w2);
  }

  // ---------------------------------------------------------------------------
  // The numeric path

  /** When the punctuation-free text parses, the number is never negative and
      alone decides the outcome: 0 quits, 1..size selects that menu entry,
      anything larger is invalid. */
  lemma {:induction false} NumericOutcome(reg: seq<Operation>, raw: string)
    requires !IsExitWord(Trim(raw))
    requires TryParseInteger(StripPunct(Trim(raw))).Some?
    ensures TryParseInteger(StripPunct(Trim(raw))).value >= 0
    ensures var n := TryParseInteger(StripPunct(Trim(raw))).value;
      Resolve(reg, raw) ==
        if n == 0 then Quit else if n <= |reg| then Selected(n - 1) else Invalid
  {
    TryParseIntegerOfStrippedNonNegative(Trim(raw));
  }

  /** Text that does not start with a letter is no exit keyword. */
  lemma {:induction false} NonLetterNotExitWord(s: string)
    requires s != [] && !IsUpperAscii(s[0]) && !IsLowerAscii(s[0])
    ensures !IsExitWord(s)
  {
    forall k | 0 <= k < |ExitWords|
      ensures !EqualsIgnoreCase(s, ExitWords[k])
    {
      assert ToLowerAscii(s[0]) != ToLowerAscii(ExitWords[k][0]);
    }
  }

  lemma {:induction false} DigitsTrimmedAndUnpunctuated(s: string)
    requires AllDigits(s)
    ensures Trim(s) == s && StripPunct(s) == s
  {
    TrimOfTrimmed(s);
    StripPunctIdentity(s);
  }

  /** Typing the menu number i of an entry selects that entry, for every i
      from 1 to the registry's size that fits in an int. */
  lemma {:induction false} MenuNumberSelects(reg: seq<Operation>, i: nat)
    requires 1 <= i <= |reg| && i <= MAX_INT
    ensures Resolve(reg, NatToString(i)) == Selected(i - 1)
  {
    var s := NatToString(i);
    DigitsTrimmedAndUnpunctuated(s);
    NonLetterNotExitWord(s);
    TryParseIntegerToString(i);
  }

  /** Any line of digits whose value fits in an int is read as that number,
      leading zeros included: it quits, selects an entry or is invalid. */
  lemma {:induction false} DigitLineOutcome(reg: seq<Operation>, s: string)
    requires s != [] && AllDigits(s) && DigitsValue(s) <= MAX_INT
    ensures var n := DigitsValue(s);
      Resolve(reg, s) == if n == 0 then Quit else if n <= |reg| then Selected(n - 1) else Invalid
  {
    DigitsTrimmedAndUnpunctuated(s);
    NonLetterNotExitWord(s);
    TryParseIntegerOfDigits(s);
  }

  /** "02" selects the second entry and "00" quits. */
  lemma {:induction false} ZeroPaddedNumbers(reg: seq<Operation>)
    requires |reg| >= 2
    ensures Resolve(reg, "02") == Selected(1)
    ensures Resolve(reg, "00") == Quit
  {
    assert "2"[..0] == [] && "0"[..0] == [];
    assert DigitsValue("2") == 2 && DigitsValue("0") == 0;
    DigitsValueLeadingZero("2");
    DigitsValueLeadingZero("0");
    assert "0" + "2" == "02" && "0" + "0" == "00";
    DigitLineOutcome(reg, "02");
    DigitLineOutcome(reg, "00");
  }

  /** "0" quits (and by SignAndDotStripped so do "-0" and "0."). */
  lemma {:induction false} ZeroQuits(reg: seq<Operation>)
    ensures Resolve(reg, "0") == Quit
  {
    MenuNumberSelectsOrQuits(reg, 0);
  }

  lemma {:induction false} MenuNumberSelectsOrQuits(reg: seq<Operation>, i: nat)
    requires i <= MAX_INT
    ensures Resolve(reg, NatToString(i)) ==
      if i == 0 then Quit else if i <= |reg| then Selected(i - 1) else Invalid
  {
    var s := NatToString(i);
    DigitsTrimmedAndUnpunctuated(s);
    NonLetterNotExitWord(s);
    TryParseIntegerToString(i);
  }

  /** A number beyond the registry that still fits in an int is invalid. */
  lemma {:induction false} NumberBeyondRegistryInvalid(reg: seq<Operation>, i: nat)
    requires |reg| < i <= MAX_INT
    ensures Resolve(reg, NatToString(i)) == Invalid
  {
    MenuNumberSelectsOrQuits(reg, i);
  }

  /** Two trimmed lines that are not exit keywords and whose punctuation-free
      texts agree and parse resolve alike. */
  lemma {:induction false} SameNumberSameOutcome(reg: seq<Operation>, a: string, b: string)
    requires Trim(a) == a && Trim(b) == b
    requires !IsExitWord(a) && !IsExitWord(b)
    requires StripPunct(a) == StripPunct(b) && TryParseInteger(StripPunct(a)).Some?
    ensures Resolve(reg, a) == Resolve(reg, b)
  {
  }

  /** A number written with one punctuation character before or after it is
      trimmed, is no exit keyword, and strips to the bare number. */
  lemma {:induction false} PunctuatedNumber(s: string, p: char, before: bool)
    requires s != [] && AllDigits(s) && IsPunct(p)
    ensures var t := if before then [p] + s else s + [p];
      Trim(t) == t && !IsExitWord(t) && StripPunct(t) == s
  {
    var t := if before then [p] + s else s + [p];
    assert t[0] == (if before then p else s[0]);
    assert t[|t| - 1] == (if before then s[|s| - 1] else p);
    TrimOfTrimmed(t);
    StripPunctIdentity(s);
    if before {
      StripPunctConcat([p], s);
    } else {
      StripPunctConcat(s, [p]);
    }
    NonLetterNotExitWord(t);
  }

  /** '-' and '.' are punctuation, so a sign or a trailing dot is stripped
      before parsing: "-2" and "2." resolve exactly as "2" does. */
  lemma {:induction false} SignAndDotStripped(reg: seq<Operation>, i: nat)
    requires i <= MAX_INT
    ensures Resolve(reg, "-" + NatToString(i)) == Resolve(reg, NatToString(i))
    ensures Resolve(reg, NatToString(i) + ".") == Resolve(reg, NatToString(i))
  {
    var s := NatToString(i);
    DigitsTrimmedAndUnpunctuated(s);
    NonLetterNotExitWord(s);
    TryParseIntegerToString(i);
    PunctuatedNumber(s, '-', true);
    PunctuatedNumber(s, '.', false);
    SameNumberSameOutcome(reg, "-" + s, s);
    SameNumberSameOutcome(reg, s + ".", s);
  }

  // ---------------------------------------------------------------------------
  // The nickname path

  /** When the punctuation-free text does not parse, the trimmed text itself,
      punctuation and all, is matched against the nicknames: no match is
      invalid, and otherwise the first match in registry order is selected. */
  lemma {:induction false} NicknameOutcome(reg: seq<Operation>, raw: string)
    requires !IsExitWord(Trim(raw))
    requires TryParseInteger(StripPunct(Trim(raw))).None?
    ensures Resolve(reg, raw) == Invalid <==>
      forall k :: 0 <= k < |reg| ==> !reg[k].Matches(Trim(raw))
    ensures Resolve(reg, raw) != Quit
    ensures forall i: nat :: (Resolve(reg, raw) == Selected(i) ||
                              (Resolve(reg, raw).Ambiguous? && Resolve(reg, raw).chosen == i)) ==>
      i < |reg| && reg[i].Matches(Trim(raw)) &&
      forall j :: 0 <= j < i ==> !reg[j].Matches(Trim(raw))
  {
    var uin := Trim(raw);
    var ops := Candidates(reg, uin);
    assert forall k :: 0 <= k < |reg| && reg[k].Matches(uin) ==> k in ops;
    assert |ops| > 0 ==> ops[0] in ops;
    assert forall a :: 0 < a < |ops| ==> ops[0] < ops[a];
  }

  /** Entry i is the only operation of the registry that the text matches. */
  predicate OnlyMatch(reg: seq<Operation>, text: string, i: nat) {
    i < |reg| && forall k :: 0 <= k < |reg| ==> (reg[k].Matches(text) <==> k == i)
  }

  /** Entries i < j both match the text. */
  predicate TwoMatch(reg: seq<Operation>, text: string, i: nat, j: nat) {
    i < j < |reg| && reg[i].Matches(text) && reg[j].Matches(text)
  }

  /** On the nickname path, for any registry: the outcome is Ambiguous exactly
      when two or more operations match, and then its candidates are all the
      matching positions in registry order. */
  lemma {:induction false} NicknameAmbiguity(reg: seq<Operation>, raw: string)
    requires !IsExitWord(Trim(raw))
    requires TryParseInteger(StripPunct(Trim(raw))).None?
    ensures Resolve(reg, raw).Ambiguous? <==> exists i: nat, j: nat :: TwoMatch(reg, Trim(raw), i, j)
    ensures Resolve(reg, raw).Ambiguous? ==>
      Resolve(reg, raw).candidates == Candidates(reg, Trim(raw))
  {
    var uin := Trim(raw);
    var ops := Candidates(reg, uin);
    if exists i: nat, j: nat :: TwoMatch(reg, uin, i, j) {
      var i: nat, j: nat :| TwoMatch(reg, uin, i, j);
      assert i in ops && j in ops;
      var a :| 0 <= a < |ops| && ops[a] == i;
      var b :| 0 <= b < |ops| && ops[b] == j;
      assert |ops| >= 2;
    }
    if |ops| > 1 {
      assert ops[0] in ops && ops[1] in ops;
      assert TwoMatch(reg, uin, ops[0], ops[1]);
    }
  }

  /** and it is Selected exactly when one operation matches. */
  lemma {:induction false} NicknameSingle(reg: seq<Operation>, raw: string)
    requires !IsExitWord(Trim(raw))
    requires TryParseInteger(StripPunct(Trim(raw))).None?
    ensures Resolve(reg, raw).Selected? <==> exists i: nat :: OnlyMatch(reg, Trim(raw), i)
  {
    var uin := Trim(raw);
    var ops := Candidates(reg, uin);
    if exists i: nat :: OnlyMatch(reg, uin, i) {
      var i: nat :| OnlyMatch(reg, uin, i);
      CandidatesOne(reg, uin, i);
    }
    if |ops| == 1 {
      assert ops[0] in ops;
      assert OnlyMatch(reg, uin, ops[0]);
    }
  }

  lemma {:induction false} NicknameSent(reg: seq<Operation>, raw: string)
    requires !IsExitWord(Trim(raw))
    requires TryParseInteger(StripPunct(Trim(raw))).None?
    ensures var sent := SelectedOperation(reg, Resolve(reg, raw));
      sent.Some? ==> sent.value.Matches(Trim(raw))
  {
    var ops := Candidates(reg, Trim(raw));
    if |ops| > 0 {
      assert ops[0] in ops;
    }
  }

  lemma {:induction false} NumberSent(reg: seq<Operation>, raw: string)
    requires !IsExitWord(Trim(raw))
    requires TryParseInteger(StripPunct(Trim(raw))).Some?
    ensures var p := TryParseInteger(StripPunct(Trim(raw)));
      var sent := SelectedOperation(reg, Resolve(reg, raw));
      sent.Some? ==> 1 <= p.value <= |reg| && sent.value == reg[p.value - 1]
  {
    var n := TryParseInteger(StripPunct(Trim(raw))).value;
    NumericOutcome(reg, raw);
    var o := if n == 0 then Quit else if n <= |reg| then Selected(n - 1) else Invalid;
    assert Resolve(reg, raw) == o;
    assert SelectedOperation(reg, o).Some? ==> 1 <= n <= |reg| && SelectedOperation(reg, o) == Some(reg[n - 1]);
  }

  /** The operation sent is the entry the number names when the line parses,
      and otherwise one whose nicknames the trimmed line matches. */
  lemma {:induction false} SentOperation(reg: seq<Operation>, raw: string)
    ensures var p := TryParseInteger(StripPunct(Trim(raw)));
      var sent := SelectedOperation(reg, Resolve(reg, raw));
      sent.Some? ==>
        (p.Some? && 1 <= p.value <= |reg| && sent.value == reg[p.value - 1]) ||
        (p.None? && sent.value.Matches(Trim(raw)))
  {
    var uin := Trim(raw);
    if IsExitWord(uin) {
      assert Resolve(reg, raw) == Quit;
    } else if TryParseInteger(StripPunct(uin)).Some? {
      NumberSent(reg, raw);
    } else {
      NicknameSent(reg, raw);
    }
  }

  /** No position is listed when no flag is set, */
  lemma {:induction false} PositionsNone(hits: seq<bool>)
    requires forall k :: 0 <= k < |hits| ==> !hits[k]
    ensures Positions(hits) == []
  {
    if hits != [] {
      var n := |hits| - 1;
      assert forall k :: 0 <= k < n ==> hits[..n][k] == hits[k];
      PositionsNone(hits[..n]);
    }
  }

  /** and exactly the set positions, in order, when one or two are set. */
  lemma {:induction false} PositionsOne(hits: seq<bool>, i: nat)
    requires i < |hits|
    requires forall k :: 0 <= k < |hits| ==> (hits[k] <==> k == i)
    ensures Positions(hits) == [i]
  {
    var n := |hits| - 1;
    assert forall k :: 0 <= k < n ==> hits[..n][k] == hits[k];
    if i == n {
      PositionsNone(hits[..n]);
    } else {
      PositionsOne(hits[..n], i);
    }
  }

  lemma {:induction false} PositionsTwo(hits: seq<bool>, i: nat, j: nat)
    requires i < j < |hits|
    requires forall k :: 0 <= k < |hits| ==> (hits[k] <==> k == i || k == j)
    ensures Positions(hits) == [i, j]
  {
    var n := |hits| - 1;
    assert forall k :: 0 <= k < n ==> hits[..n][k] == hits[k];
    if j == n {
      PositionsOne(hits[..n], i);
    } else {
      PositionsTwo(hits[..n], i, j);
    }
  }

  /** The filter finds nothing when nothing matches, */
  lemma {:induction false} CandidatesNone(reg: seq<Operation>, text: string)
    requires forall k :: 0 <= k < |reg| ==> !reg[k].Matches(text)
    ensures Candidates(reg, text) == []
  {
    PositionsNone(MatchMask(reg, text));
  }

  /** and exactly the matching positions, in order, when there are one or two. */
  lemma {:induction false} CandidatesOne(reg: seq<Operation>, text: string, i: nat)
    requires i < |reg|
    requires forall k :: 0 <= k < |reg| ==> (reg[k].Matches(text) <==> k == i)
    ensures Candidates(reg, text) == [i]
  {
    PositionsOne(MatchMask(reg, text), i);
  }

  lemma {:induction false} CandidatesTwo(reg: seq<Operation>, text: string, i: nat, j: nat)
    requires i < j < |reg|
    requires forall k :: 0 <= k < |reg| ==> (reg[k].Matches(text) <==> k == i || k == j)
    ensures Candidates(reg, text) == [i, j]
  {
    PositionsTwo(MatchMask(reg, text), i, j);
  }

  /** With mutually exclusive nicknames, a line equal to a nickname of entry i,
      in any case, selects entry i and no other (when it is neither an exit
      keyword nor a number). */
  lemma {:induction false} NicknameSelects(reg: seq<Operation>, raw: string, i: nat, a: nat)
    requires NicknamesExclusive(reg)
    requires i < |reg| && a < |reg[i].nicks|
    requires EqualsIgnoreCase(Trim(raw), reg[i].nicks[a])
    requires !IsExitWord(Trim(raw))
    requires TryParseInteger(StripPunct(Trim(raw))).None?
    ensures Resolve(reg, raw) == Selected(i)
  {
    var uin := Trim(raw);
    var ops := Candidates(reg, uin);
    assert reg[i].Matches(uin);
    forall k | 0 <= k < |reg| ensures reg[k].Matches(uin) <==> k == i {
      if reg[k].Matches(uin) {
        ExclusiveMatchesUnique(reg, uin, i, k);
      }
    }
    CandidatesOne(reg, uin, i);
  }

  /** If two entries i < j wrongly share the nickname a line matches, and no
      other entry matches it, the outcome is Ambiguous over exactly those two,
      in registry order, and entry i is the one selected. */
  lemma {:induction false} SharedNicknameAmbiguous(reg: seq<Operation>, raw: string, i: nat, j: nat)
    requires i < j < |reg|
    requires forall k :: 0 <= k < |reg| ==> (reg[k].Matches(Trim(raw)) <==> k == i || k == j)
    requires !IsExitWord(Trim(raw))
    requires TryParseInteger(StripPunct(Trim(raw))).None?
    ensures Resolve(reg, raw) == Ambiguous([i, j], i)
  {
    var uin := Trim(raw);
    var ops := Candidates(reg, uin);
    CandidatesTwo(reg, uin, i, j);
  }

  lemma {:induction false} MenuNumbersOfTwo()
    ensures MenuNumbers([1, 4]) == ["2", "5"]
  {
    assert [1, 4][1..] == [4];
    assert MenuNumbers([4]) == ["5"];
  }

  /** Two candidates at menu positions 2 and 5 are suggested as "2, or 5". */
  lemma {:induction false} SuggestionOfTwo()
    ensures Suggestion([1, 4]) == "Did you mean 2, or 5?"
  {
    MenuNumbersOfTwo();
    OrListExamples();
    assert Suggestion([1, 4]) == "Did you mean " + "2, or 5" + "?";
    assert "Did you mean " + "2, or 5" + "?" == "Did you mean 2, or 5?";
  }
}
