# Selection resolution of the Project1 diagnostic client, in Dafny

The client shows a menu of diagnostic operations that a remote host agent
understands, such as "Get host uptime" or "Get host running processes". The user
picks one by typing its menu number or one of its nicknames. The chosen
operation's one-byte code is what the client would send to the host.

This project models the core of that client. Three parts are covered:

- the operation registry: `Operation` values and the six-entry `_operations`
  list that the class initialiser builds;
- the resolution step that each pass of the `interact` loop runs on one input
  line;
- the helpers that step uses: `equalsAnyIgnoreCase`, `orList`,
  `tryParseInteger`, and models of the Java library calls `String.trim`,
  `equalsIgnoreCase` and `replaceAll("[\\p{Punct}]", "")`.

The resolution step works as follows. The line is trimmed. If it equals "quit",
"stop" or "exit" ignoring case, the session ends. Otherwise all punctuation is
removed and the rest is parsed as an `int`. If the parse succeeds, 0 quits,
1 to size selects that menu entry, and any other value is an invalid choice.
If the parse fails, the original trimmed text is matched against every
operation's nicknames, ignoring case. No match is an invalid choice. Several
matches print "Did you mean …?" with the candidates' numbers, and the first
match is still selected.

Files and modules:

- `Wrappers.dfy` holds `Option`.
- `JavaText.dfy` holds the library models: `Trim`, `EqualsIgnoreCase`, `StripPunct`, `TryParseInteger` and `NatToString`.
- `ClientHelpers.dfy` holds `equalsAnyIgnoreCase` (a predicate plus the early-return loop) and `orList` (a reference function plus the `StringBuilder` loop).
- `Operations.dfy` holds the `Operation` datatype, `Matches`, the `OperationList` class with its `Add`, and the static initialiser `LoadOperations` together with `Registry`, the list it builds.
- `Selection.dfy` holds the `Outcome` of one input line, `Candidates` (the stream filter), `Resolve`, and the lemmas about them for any registry.
- `RegistryFacts.dfy` holds what the six-entry registry itself guarantees.

An `Operation` is a value here: its constructor only stores its arguments, and
`getCode`/`getDescription` are the datatype's `code`/`descr` fields. The
ArrayList behind `_operations` is a class whose `Add` appends, because the
source fills it in place.

Three behaviours of the code are easy to misread, and the model keeps them as
the code has them:

- Ambiguity still selects. When several operations match a nickname, the code
  prints the suggestion and then selects the first match anyway; it does not
  ask again (src/Project1Client.java:63-72). `Resolve` returns
  `Ambiguous(candidates, chosen)` with `chosen == candidates[0]`, and
  `SelectedOperation` yields that operation.
- Negative numbers select. '-' is punctuation and is removed before parsing
  (src/Project1Client.java:50), so "-2" selects entry 2 and "-0" quits
  (`SignAndDotStripped`). Leading zeros are read too: "02" selects entry 2
  and "00" quits (`ZeroPaddedNumbers`).
- The list of candidates always has a comma before "or": two candidates print
  as "2, or 5" (`OrListExamples`, `SuggestionOfTwo`).

## Model

| member | source | states |
|---|---|---|
| `JavaText.Trim` | src/Project1Client.java:44 | the trimmed line has no code unit at or below U+0020 at either end, and it is empty exactly when the whole line is such white space |
| `JavaText.TrimDecomposition` | src/Project1Client.java:44 | trim returns exactly the text between any white-space padding that has no white space at its own ends |
| `JavaText.TrimPadding` | src/Project1Client.java:44 | white space added before and after a line does not change its trimmed text |
| `JavaText.TrimSplit` | src/Project1Client.java:44 | every line is its trimmed text with white space before and after it, so trimming only removes white space at the ends |
| `JavaText.TrimOfTrimmed` | src/Project1Client.java:44 | a line with no white space at either end is left unchanged |
| `JavaText.TrimIdempotent` | src/Project1Client.java:44 | trimming twice is the same as trimming once |
| `JavaText.EqualsIgnoreCase` | src/Project1Client.java:107 | equal strings are equal ignoring case; strings equal ignoring case have the same length, and are identical when the first has no letter |
| `JavaText.UpperCaseEqualsIgnoreCase` | src/Project1Client.java:107 | an upper-cased string equals the original ignoring case |
| `JavaText.EqualsIgnoreCaseSymmetric` | src/Project1Client.java:107 | equalsIgnoreCase is symmetric |
| `JavaText.EqualsIgnoreCaseTransitive` | src/Project1Client.java:107 | equalsIgnoreCase is transitive |
| `JavaText.StripPunct` | src/Project1Client.java:50 | removing \p{Punct} leaves no punctuation character and never lengthens the text |
| `JavaText.StripPunctKeepsOthers` | src/Project1Client.java:50 | every non-punctuation character survives, as many times as it occurs |
| `JavaText.StripPunctConcat` | src/Project1Client.java:50 | removal works character by character: it distributes over concatenation |
| `JavaText.StripPunctIdentity` | src/Project1Client.java:50 | text without punctuation is left unchanged |
| `JavaText.StripPunctOfPunctuation` | src/Project1Client.java:50 | text made only of punctuation, such as "!!!", becomes empty |
| `JavaText.TryParseInteger` | src/Project1Client.java:133-140 | a parsed value is within the 32-bit int range; parsing succeeds only on non-empty text made of an optional sign followed by digits; a negative result needs a leading '-' |
| `JavaText.TryParseIntegerOfDigits` | src/Project1Client.java:133-140 | unsigned digits, leading zeros included, parse to their value when it is at most 2^31-1 and to null otherwise |
| `JavaText.TryParseIntegerSigned` | src/Project1Client.java:133-140 | '+' before digits parses as the digits alone; '-' before digits parses to minus their value when it is at most 2^31, and to null otherwise |
| `JavaText.TryParseIntegerLeadingZero` | src/Project1Client.java:133-140 | a zero in front of digits changes nothing: "02" parses as "2" and "00" as "0" |
| `JavaText.DigitsValueLeadingZero` | src/Project1Client.java:133-140 | a leading zero does not change the value of a digit string |
| `JavaText.NatToString` | src/Project1Client.java:68 | String.valueOf of a non-negative int gives non-empty digits with no leading zero whose decimal value is that number |
| `JavaText.TryParseIntegerToString` | src/Project1Client.java:133-140 | parsing the decimal form of any 32-bit value gives that value back |
| `JavaText.TryParseIntegerOverflow` | src/Project1Client.java:133-140 | the digits of a value above 2^31-1 fail to parse, giving null |
| `JavaText.TryParseIntegerOfStrippedNonNegative` | src/Project1Client.java:50 | a number parsed from punctuation-free text is never negative |
| `ClientHelpers.EqualsAnyIgnoreCase` | src/Project1Client.java:103-111 | the early-return loop returns true exactly when some choice equals the comparand ignoring case |
| `ClientHelpers.OrList` | src/Project1Client.java:114-125 | the reference text of orList: every item but the last followed by ", ", then "or " and the last item; never shorter than "or " |
| `ClientHelpers.OrListLength` | src/Project1Client.java:114-125 | the text is the items plus two characters per ", " and three for "or ", so its length is the items' total length plus 2 per item plus 1 |
| `ClientHelpers.OrListShape` | src/Project1Client.java:114-125 | the text ends with "or " and the last item; with two or more items it starts with the first item and ", " |
| `ClientHelpers.BuildOrList` | src/Project1Client.java:114-125 | the StringBuilder loop produces exactly the reference text: every item except the last, each followed by ", ", then "or " and the last item |
| `ClientHelpers.OrListExamples` | src/Project1Client.java:114-125 | ["5"] gives "or 5" and ["2","5"] gives "2, or 5" |
| `Operations.Operation.Matches` | src/Project1Client.java:174-178 | a text equal to one of the nicknames matches, and a matching text has the length of one of them |
| `Operations.Registry` | src/Project1Client.java:145-153 | the registry holds six operations, entry i with code 11*(i+1), each with at least one nickname |
| `Operations.MatchesIgnoresCase` | src/Project1Client.java:175-178 | two texts equal ignoring case match the same operations |
| `Operations.ExclusiveMatchesUnique` | src/Project1Client.java:165 | when nicknames are mutually exclusive, as the constructor requires, a text matches at most one operation |
| `Operations.OperationList.constructor` | src/Project1Client.java:146 | a new list is empty |
| `Operations.OperationList.Add` | src/Project1Client.java:148-153 | add appends the operation at the end and changes nothing else |
| `Operations.LoadOperations` | src/Project1Client.java:145-154 | the static initialiser builds exactly the six operations, in menu order |
| `Selection.Candidates` | src/Project1Client.java:55 | the filter yields exactly the positions of the operations the text matches, strictly increasing, so in registry order |
| `Selection.IsExitWord` | src/Project1Client.java:45 | "quit", "stop" and "exit" are exit words, and every exit word has four characters |
| `Selection.Resolve` | src/Project1Client.java:44-84 | a selected index is inside the registry; an ambiguous outcome has at least two candidates and selects the first |
| `Selection.SelectedOperation` | src/Project1Client.java:72-83 | an operation is sent exactly after a selection or an ambiguity: entry `index` after a selection and entry `chosen`, the first candidate, after an ambiguity |
| `Selection.MenuNumbers` | src/Project1Client.java:68 | each candidate position becomes the decimal text of its 1-based menu number, in the same order |
| `Selection.Suggestion` | src/Project1Client.java:68 | the ambiguity line starts with "Did you mean " and ends with '?' |
| `Selection.SuggestionOfTwo` | src/Project1Client.java:68 | candidates at menu positions 2 and 5 print as "Did you mean 2, or 5?" |
| `Selection.QuitExactly` | src/Project1Client.java:44-75 | a line quits if and only if its trimmed text is an exit keyword or its punctuation-free text parses to 0; the nickname path never quits |
| `Selection.ExitWordQuits` | src/Project1Client.java:45-46 | "quit", "stop" or "exit", in any case, quits before any parsing, whatever the registry holds |
| `Selection.WhiteSpaceIgnored` | src/Project1Client.java:44 | white space around a line does not change its outcome |
| `Selection.NumericOutcome` | src/Project1Client.java:73-83 | when the stripped text parses, the number is non-negative and decides the outcome on its own: 0 quits, 1..size selects entry n-1, larger is invalid |
| `Selection.MenuNumberSelects` | src/Project1Client.java:77-83 | typing menu number i, for 1 <= i <= size, selects entry i-1 |
| `Selection.MenuNumberSelectsOrQuits` | src/Project1Client.java:73-83 | for every int-sized i, its decimal text quits (i = 0), selects entry i-1 (i <= size) or is invalid |
| `Selection.DigitLineOutcome` | src/Project1Client.java:50-83 | any line of digits whose value n fits in an int, leading zeros included, quits when n = 0, selects entry n-1 when n <= size, and is invalid otherwise |
| `Selection.ZeroPaddedNumbers` | src/Project1Client.java:73-83 | "02" selects the second entry and "00" quits |
| `Selection.ZeroQuits` | src/Project1Client.java:74-75 | "0" quits |
| `Selection.NumberBeyondRegistryInvalid` | src/Project1Client.java:77-81 | a number above the registry size that fits in an int is invalid |
| `Selection.SameNumberSameOutcome` | src/Project1Client.java:50 | two non-exit lines whose punctuation-free texts are the same parsable number resolve alike |
| `Selection.PunctuatedNumber` | src/Project1Client.java:50 | a number with one punctuation character before or after it is already trimmed, is not an exit keyword, and strips to the bare number |
| `Selection.SignAndDotStripped` | src/Project1Client.java:50 | "-n" and "n." resolve exactly as "n" does |
| `Selection.NicknameOutcome` | src/Project1Client.java:52-72 | when the stripped text does not parse, the trimmed unstripped text is matched: no matching operation is invalid, it never quits, and the chosen entry is the first match in registry order |
| `Selection.NicknameAmbiguity` | src/Project1Client.java:55-72 | for any registry, on the nickname path the outcome is Ambiguous exactly when two entries match, and its candidates are then the filter's result: all matching positions, in increasing order |
| `Selection.NicknameSingle` | src/Project1Client.java:55-72 | for any registry, on the nickname path the outcome is Selected exactly when one entry and no other matches |
| `Selection.SentOperation` | src/Project1Client.java:50-83 | the operation sent is entry n-1 when the line parses to n, which lies in 1..size, and otherwise an operation the trimmed line matches |
| `Selection.NumberSent` | src/Project1Client.java:73-83 | when the line parses to n, an operation is sent only for 1 <= n <= size, and it is entry n-1 |
| `Selection.NicknameSent` | src/Project1Client.java:52-72 | on the nickname path, any operation sent matches the trimmed line |
| `Selection.CandidatesNone` | src/Project1Client.java:55-62 | when no operation matches, the filter is empty |
| `Selection.CandidatesOne` | src/Project1Client.java:55 | when only entry i matches, the filter is exactly [i] |
| `Selection.CandidatesTwo` | src/Project1Client.java:55 | when only entries i < j match, the filter is exactly [i, j] |
| `Selection.NicknameSelects` | src/Project1Client.java:55-72 | with mutually exclusive nicknames, a non-numeric, non-exit line equal to a nickname of entry i in any case selects entry i |
| `Selection.SharedNicknameAmbiguous` | src/Project1Client.java:63-72 | when exactly entries i < j share the matched nickname, the outcome is Ambiguous([i, j]) and entry i is selected |
| `RegistryFacts.RegistryShape` | src/Project1Client.java:146-153 | the registry has six operations with codes 11, 22, 33, 44, 55 and 66, all distinct |
| `RegistryFacts.RegistryNicknamesExclusive` | src/Project1Client.java:148-153 | no nickname of one registered operation equals a nickname of another, ignoring case |
| `RegistryFacts.RegistryNicknameSelects` | src/Project1Client.java:44-72 | any registered nickname, in any case and with any surrounding white space, selects the operation that owns it |
| `RegistryFacts.RegistryNumberBeyond` | src/Project1Client.java:77-81 | every number above six is invalid, including numbers too large for an int, which fail to parse and match no nickname |
| `RegistryFacts.BlankOrPunctuationInvalid` | src/Project1Client.java:50-62 | a line made only of white space and punctuation is invalid |
| `RegistryFacts.ExampleNumbers` | src/Project1Client.java:73-83 | "2" selects the uptime entry; "7" is invalid |
| `RegistryFacts.ExampleWords` | src/Project1Client.java:44-72 | "TIME" selects the date-and-time entry; "quit" quits |
| `RegistryFacts.ExampleOrdinal` | src/Project1Client.java:50-62 | "99th" does not parse after stripping and matches no nickname, so it is invalid |
| `RegistryFacts.ExampleBlank` | src/Project1Client.java:44-62 | "", "   " and "!!!" are invalid |

## Left out

- The console loop of `interact` is not modelled: the prompt, `Scanner.nextLine`, `while (true)`, and the "Invalid choice." and "OPERATION SELECTED" messages. `Resolve` models one pass of the loop, and the loop only repeats it.
- `showMenu` is left out because it only prints.
- The socket constructor, `chatDemo` and `writeByte` are left out because they are network I/O. Sending the selected code is commented out in the source, so `SelectedOperation` only names the operation whose `code` would be sent.
- `Trim`, `EqualsIgnoreCase`, `TryParseInteger`: the Unicode behaviour of the Java library is not modelled. Case folding covers ASCII letters only, where Java also folds non-ASCII letters. Digits are ASCII only, where `Integer.parseInt` also accepts other Unicode decimal digits. Trimming (code units at or below U+0020) and `\p{Punct}` (the 32 ASCII punctuation characters) are exact.
- `Selection.Candidates`: candidates are registry positions. In Java, `indexOf` finds an operation by object identity, so positions match the code even when two entries hold equal values.
- `Operation.getDescription`, `getCode` and the constructor have no members of their own: they are the fields and constructor of the `Operation` datatype.
- `ClientHelpers.OrList` and `ClientHelpers.BuildOrList` require at least one item. With no items the Java code indexes position -1 and throws. The caller only reaches `orList` with two or more candidates.
