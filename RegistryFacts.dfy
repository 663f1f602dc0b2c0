/** What the six-entry registry of Project1Client guarantees: distinct codes,
    mutually exclusive nicknames, and so a unique resolution for every nickname. */
module RegistryFacts {
  import opened Wrappers
  import opened JavaText
  import opened ClientHelpers
  import opened Operations
  import opened Selection

  /** A non-empty word of lower-case ASCII letters, as every registered nickname is. */
  predicate IsLowerWord(s: string) {
    s != [] && forall k :: 0 <= k < |s| ==> IsLowerAscii(s[k])
  }

  /** Every nickname of the registry, in registry order. */
  const AllNicknames: seq<string> :=
    ["date", "time", "uptime", "memory", "mem", "netstat", "users", "who", "process", "processes", "ps"]

  /** The registry holds six operations with codes 11 to 66, no two alike. */
  lemma RegistryShape()
    ensures |Registry()| == 6
    ensures forall i :: 0 <= i < 6 ==> Registry()[i].code as int == 11 * (i + 1)
    ensures CodesDistinct(Registry())
  {
  }

  lemma {:induction false} NicknameInList(i: nat, a: nat)
    requires i < |Registry()| && a < |Registry()[i].nicks|
    ensures Registry()[i].nicks[a] in AllNicknames
  {
  }

  lemma {:induction false} NicknameNotExit(i: nat, a: nat)
    requires i < |Registry()| && a < |Registry()[i].nicks|
    ensures Registry()[i].nicks[a] !in ExitWords
  {
  }

  lemma {:induction false} NicknameLower(i: nat, a: nat)
    requires i < |Registry()| && a < |Registry()[i].nicks|
    ensures IsLowerWord(Registry()[i].nicks[a])
  {
  }

  lemma {:induction false} NicknamesListed(i: nat, a: nat)
    requires i < |Registry()| && a < |Registry()[i].nicks|
    ensures Registry()[i].nicks[a] in AllNicknames
    ensures Registry()[i].nicks[a] !in ExitWords
    ensures IsLowerWord(Registry()[i].nicks[a])
  {
    NicknameInList(i, a);
    NicknameNotExit(i, a);
    NicknameLower(i, a);
  }

  /** Among words with no upper-case letter, equality ignoring case is plain equality. */
  lemma {:induction false} LowerEqualsIgnoreCase(x: string, y: string)
    requires forall k :: 0 <= k < |x| ==> !IsUpperAscii(x[k])
    requires forall k :: 0 <= k < |y| ==> !IsUpperAscii(y[k])
    ensures EqualsIgnoreCase(x, y) <==> x == y
  {
    if EqualsIgnoreCase(x, y) {
      assert forall k :: 0 <= k < |x| ==> x[k] == ToLowerAscii(x[k]) == ToLowerAscii(y[k]) == y[k];
    }
  }

  /** Each nickname belongs to exactly one operation: they are listed once each. */
  lemma {:induction false} NicknameOwner(i: nat, a: nat, j: nat, b: nat)
    requires i < |Registry()| && a < |Registry()[i].nicks|
    requires j < |Registry()| && b < |Registry()[j].nicks|
    requires Registry()[i].nicks[a] == Registry()[j].nicks[b]
    ensures i == j
  {
  }

  /** The constructor's requirement holds for this registry: no nickname of one
      operation equals, ignoring case, a nickname of another. */
  lemma RegistryNicknamesExclusive()
    ensures NicknamesExclusive(Registry())
  {
    forall i, j, a, b |
      0 <= i < |Registry()| && 0 <= j < |Registry()| && i != j &&
      0 <= a < |Registry()[i].nicks| && 0 <= b < |Registry()[j].nicks|
      ensures !EqualsIgnoreCase(Registry()[i].nicks[a], Registry()[j].nicks[b])
    {
      NicknamesListed(i, a);
      NicknamesListed(j, b);
      LowerEqualsIgnoreCase(Registry()[i].nicks[a], Registry()[j].nicks[b]);
      if Registry()[i].nicks[a] == Registry()[j].nicks[b] {
        NicknameOwner(i, a, j, b);
      }
    }
  }

  /** Text equal to a lower-case word ignoring case consists of letters only,
      so it neither holds punctuation nor parses as a number. */
  lemma {:induction false} WordDoesNotParse(t: string, w: string)
    requires IsLowerWord(w) && EqualsIgnoreCase(t, w)
    ensures StripPunct(t) == t
    ensures TryParseInteger(StripPunct(t)) == None
  {
    assert forall k :: 0 <= k < |t| ==> IsLowerAscii(ToLowerAscii(t[k]));
    assert forall k :: 0 <= k < |t| ==> IsUpperAscii(t[k]) || IsLowerAscii(t[k]);
    StripPunctIdentity(t);
  }

  /** Text equal, ignoring case, to a lower-case word other than the exit
      keywords is no exit keyword. */
  lemma {:induction false} NicknameNotExitWord(t: string, w: string)
    requires IsLowerWord(w) && w !in ExitWords && EqualsIgnoreCase(t, w)
    ensures !IsExitWord(t)
  {
    forall k | 0 <= k < |ExitWords| ensures !EqualsIgnoreCase(t, ExitWords[k]) {
      LowerEqualsIgnoreCase(w, ExitWords[k]);
      assert EqualsIgnoreCase(t, ExitWords[k]) ==> EqualsIgnoreCase(w, ExitWords[k]);
    }
  }

  /** Typing any registered nickname, in any mix of cases and with any white
      space around it, selects the operation that owns it and nothing else. */
  lemma {:induction false} RegistryNicknameSelects(raw: string, i: nat, a: nat)
    requires i < |Registry()| && a < |Registry()[i].nicks|
    requires EqualsIgnoreCase(Trim(raw), Registry()[i].nicks[a])
    ensures Resolve(Registry(), raw) == Selected(i)
  {
    var uin := Trim(raw);
    var nick := Registry()[i].nicks[a];
    NicknamesListed(i, a);
    WordDoesNotParse(uin, nick);
    NicknameNotExitWord(uin, nick);
    RegistryNicknamesExclusive();
    NicknameSelects(Registry(), raw, i, a);
  }

  /** Text that is empty or starts with something other than a letter matches
      no nickname of the registry. */
  lemma {:induction false} NonWordMatchesNothing(t: string)
    requires t == [] || !(IsUpperAscii(t[0]) || IsLowerAscii(t[0]))
    ensures forall k :: 0 <= k < |Registry()| ==> !Registry()[k].Matches(t)
  {
    forall k, a | 0 <= k < |Registry()| && 0 <= a < |Registry()[k].nicks|
      ensures !EqualsIgnoreCase(t, Registry()[k].nicks[a])
    {
      NicknamesListed(k, a);
      if t != [] && |t| == |Registry()[k].nicks[a]| {
        assert ToLowerAscii(t[0]) != ToLowerAscii(Registry()[k].nicks[a][0]);
      }
    }
  }

  /** Every number above six is an invalid choice, including those too large
      for an int, which fail to parse and then match no nickname. */
  lemma {:induction false} RegistryNumberBeyond(n: nat)
    requires n > |Registry()|
    ensures Resolve(Registry(), NatToString(n)) == Invalid
  {
    if n <= MAX_INT {
      NumberBeyondRegistryInvalid(Registry(), n);
    } else {
      var s := NatToString(n);
      DigitsTrimmedAndUnpunctuated(s);
      NonLetterNotExitWord(s);
      TryParseIntegerOverflow(n);
      NonWordMatchesNothing(s);
      NicknameOutcome(Registry(), s);
    }
  }

  /** Lines that hold nothing but white space and punctuation are invalid. */
  lemma {:induction false} BlankOrPunctuationInvalid(raw: string)
    requires forall k :: 0 <= k < |Trim(raw)| ==> IsPunct(Trim(raw)[k])
    ensures Resolve(Registry(), raw) == Invalid
  {
    var uin := Trim(raw);
    StripPunctOfPunctuation(uin);
    if uin != [] {
      assert IsPunct(uin[0]);
      NonLetterNotExitWord(uin);
    }
    NonWordMatchesNothing(uin);
    NicknameOutcome(Registry(), raw);
  }

  /** Worked examples: "2" selects the uptime entry and "7" is out of range. */
  lemma {:induction false} ExampleNumbers()
    ensures Resolve(Registry(), "2") == Selected(1)
    ensures Resolve(Registry(), "7") == Invalid
  {
    assert NatToString(2) == "2" && NatToString(7) == "7";
    MenuNumberSelects(Registry(), 2);
    RegistryNumberBeyond(7);
  }

  /** "TIME" selects the date-and-time entry; "quit" quits. */
  lemma {:induction false} ExampleWords()
    ensures Resolve(Registry(), "TIME") == Selected(0)
    ensures Resolve(Registry(), "quit") == Quit
  {
    TrimOfTrimmed("TIME");
    RegistryNicknameSelects("TIME", 0, 1);
    TrimOfTrimmed("quit");
    ExitWordQuits(Registry(), "quit", 0);
  }

  /** "99th" keeps its letters after stripping, so it does not parse, and it
      names no operation. */
  lemma {:induction false} ExampleOrdinal()
    ensures Resolve(Registry(), "99th") == Invalid
  {
    TrimOfTrimmed("99th");
    NonLetterNotExitWord("99th");
    StripPunctIdentity("99th");
    NonWordMatchesNothing("99th");
    NicknameOutcome(Registry(), "99th");
  }

  /** "", "   " and "!!!" are invalid. */
  lemma {:induction false} ExampleBlank()
    ensures Resolve(Registry(), "") == Invalid
    ensures Resolve(Registry(), "   ") == Invalid
    ensures Resolve(Registry(), "!!!") == Invalid
  {
    BlankOrPunctuationInvalid("");
    BlankOrPunctuationInvalid("   ");
    TrimOfTrimmed("!!!");
    BlankOrPunctuationInvalid("!!!");
  }
}
