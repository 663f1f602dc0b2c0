/** The two static string helpers of Project1Client: equalsAnyIgnoreCase and orList. */
module ClientHelpers {
  import opened JavaText

  /** The property equalsAnyIgnoreCase decides: some choice equals the comparand ignoring case. */
  predicate AnyEqualsIgnoreCase(comparand: string, choices: seq<string>) {
    exists k :: 0 <= k < |choices| && EqualsIgnoreCase(comparand, choices[k])
  }

  /** equalsAnyIgnoreCase: scans the choices in order and returns at the first match. */
  method EqualsAnyIgnoreCase(comparand: string, choices: seq<string>) returns (found: bool)
    ensures found <==> AnyEqualsIgnoreCase(comparand, choices)
  {
    for k := 0 to |choices|
      invariant forall j :: 0 <= j < k ==> !EqualsIgnoreCase(comparand, choices[j])
    {
      if EqualsIgnoreCase(comparand, choices[k]) {
        return true;
      }
    }
    return false;
  }

  /** The text orList produces: every item but the last followed by ", ",
      then "or " and the last item. */
  function OrList(items: seq<string>): (r: string)
    requires |items| > 0
    ensures |r| >= 3
    decreases |items|
  {
    if |items| == 1 then "or " + items[0]
    else items[0] + ", " + OrList(items[1..])
  }

  /** The combined length of the items. */
  function TotalLength(items: seq<string>): nat {
    if items == [] then 0 else |items[0]| + TotalLength(items[1..])
  }

  /** The text holds every item plus two characters per separator ", " and the
      three of "or ": nothing else is added. */
  lemma {:induction false} OrListLength(items: seq<string>)
    requires |items| > 0
    ensures |OrList(items)| == TotalLength(items) + 2 * |items| + 1
    decreases |items|
  {
    if |items| > 1 {
      OrListLength(items[1..]);
    } else {
      assert items[1..] == [];
    }
  }

  /** The list always ends with "or " and the last item, and with two or more
      items it starts with the first item and ", ". */
  lemma {:induction false} OrListShape(items: seq<string>)
    requires |items| > 0
    ensures |OrList(items)| >= 3 + |items[|items| - 1]|
    ensures var r := OrList(items);
      r[|r| - |items[|items| - 1]| - 3..] == "or " + items[|items| - 1]
    ensures |items| > 1 ==>
      |OrList(items)| > |items[0]| + 2 && OrList(items)[..|items[0]| + 2] == items[0] + ", "
    decreases |items|
  {
    if |items| > 1 {
      var last := items[|items| - 1];
      var rest := OrList(items[1..]);
      OrListShape(items[1..]);
      assert items[1..][|items[1..]| - 1] == last;
      var r := items[0] + ", " + rest;
      assert r[|r| - |last| - 3..] == rest[|rest| - |last| - 3..];
      assert r[..|items[0]| + 2] == items[0] + ", ";
    }
  }

  /** One step of orList from position i: the item there, ", ", then the rest. */
  lemma OrListStep(items: seq<string>, i: nat)
    requires i < |items| - 1
    ensures OrList(items[i..]) == items[i] + ", " + OrList(items[i + 1..])
  {
    assert items[i..][1..] == items[i + 1..];
  }

  /** orList from the last position is "or " and the last item. */
  lemma OrListLast(items: seq<string>)
    requires |items| > 0
    ensures OrList(items[|items| - 1..]) == "or " + items[|items| - 1]
  {
    assert items[|items| - 1..] == [items[|items| - 1]];
  }

  /** orList as written: a StringBuilder filled in a counted loop. */
  method BuildOrList(items: seq<string>) returns (text: string)
    requires |items| > 0
    ensures text == OrList(items)
  {
    var sb := "";
    var i := 0;
    assert items[0..] == items;
    while i < |items| - 1
      invariant 0 <= i <= |items| - 1
      invariant sb + OrList(items[i..]) == OrList(items)
    {
      OrListStep(items, i);
      sb := sb + items[i] + ", ";
      i := i + 1;
    }
    OrListLast(items);
    sb := sb + "or ";
    sb := sb + items[|items| - 1];
    text := sb;
  }

  /** orList of one item is "or " and the item; of two, the first, ", or ", the second. */
  lemma {:induction false} OrListExamples()
    ensures OrList(["5"]) == "or 5"
    ensures OrList(["2", "5"]) == "2, or 5"
  {
    assert ["2", "5"][1..] == ["5"];
    assert OrList(["2", "5"]) == "2" + ", " + "or 5";
  }
}
