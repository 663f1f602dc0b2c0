/** The operation registry: Project1Client.Operation and the static list
    _operations that the class initialiser fills with six entries. */
module Operations {
  import opened JavaText
  import opened ClientHelpers

  /** Java's signed byte, the type of an operation's wire code. */
  newtype JavaByte = x: int | -128 <= x < 128

  /** An operation the remote host understands: a description shown in the
      menu, the byte that identifies it to the host, and its nicknames. */
  datatype Operation = Operation(descr: string, code: JavaByte, nicks: seq<string>) {

    /** Operation.matches: the text equals one of the nicknames, ignoring case. */
    function Matches(text: string): (r: bool)
      ensures text in nicks ==> r
      ensures r ==> exists k :: 0 <= k < |nicks| && |nicks[k]| == |text|
    {
      AnyEqualsIgnoreCase(text, nicks)
    }
  }

  /** Operation.matches ignores the case of the text it is given. */
  lemma MatchesIgnoresCase(op: Operation, text: string, other: string)
    requires EqualsIgnoreCase(text, other)
    ensures op.Matches(text) <==> op.Matches(other)
  {
    if op.Matches(text) {
      var k :| 0 <= k < |op.nicks| && EqualsIgnoreCase(text, op.nicks[k]);
      EqualsIgnoreCaseSymmetric(text, other);
      EqualsIgnoreCaseTransitive(other, text, op.nicks[k]);
    }
    if op.Matches(other) {
      var k :| 0 <= k < |op.nicks| && EqualsIgnoreCase(other, op.nicks[k]);
      EqualsIgnoreCaseTransitive(text, other, op.nicks[k]);
    }
  }

  /** No two operations share a code. */
  predicate CodesDistinct(reg: seq<Operation>) {
    forall i, j :: 0 <= i < j < |reg| ==> reg[i].code != reg[j].code
  }

  /** The constructor's documented requirement: nicknames are mutually exclusive
      among all operations (compared as matches compares them, ignoring case). */
  predicate NicknamesExclusive(reg: seq<Operation>) {
    forall i, j, a, b ::
      0 <= i < |reg| && 0 <= j < |reg| && i != j &&
      0 <= a < |reg[i].nicks| && 0 <= b < |reg[j].nicks| ==>
        !EqualsIgnoreCase(reg[i].nicks[a], reg[j].nicks[b])
  }

  /** With exclusive nicknames, a text that matches one operation matches no other. */
  lemma ExclusiveMatchesUnique(reg: seq<Operation>, text: string, i: nat, j: nat)
    requires NicknamesExclusive(reg)
    requires i < |reg| && j < |reg|
    requires reg[i].Matches(text) && reg[j].Matches(text)
    ensures i == j
  {
    var a :| 0 <= a < |reg[i].nicks| && EqualsIgnoreCase(text, reg[i].nicks[a]);
    var b :| 0 <= b < |reg[j].nicks| && EqualsIgnoreCase(text, reg[j].nicks[b]);
    EqualsIgnoreCaseSymmetric(text, reg[i].nicks[a]);
    EqualsIgnoreCaseTransitive(reg[i].nicks[a], text, reg[j].nicks[b]);
  }

  /** The ArrayList<Operation> behind _operations: a list that grows by add. */
  class OperationList {
    var ops: seq<Operation>

    constructor ()
      ensures ops == []
    {
      ops := [];
    }

    /** ArrayList.add: appends one operation at the end. */
    method Add(op: Operation)
      modifies this
      ensures ops == old(ops) + [op]
    {
      ops := ops + [op];
    }
  }

  /** The registry the class initialiser builds, in menu order. */
  function Registry(): (r: seq<Operation>)
    ensures |r| == 6
    ensures forall i :: 0 <= i < |r| ==> r[i].code as int == 11 * (i + 1)
    ensures forall i :: 0 <= i < |r| ==> |r[i].nicks| > 0
  {
    [ Operation("Get host date & time", 11, ["date", "time"]),
      Operation("Get host uptime", 22, ["uptime"]),
      Operation("Get host memory usage", 33, ["memory", "mem"]),
      Operation("Get host netstat output", 44, ["netstat"]),
      Operation("Get host current users", 55, ["users", "who"]),
      Operation("Get host running processes", 66, ["process", "processes", "ps"])
    ]
  }

  /** The static initialiser: six add calls on a fresh list. */
  method LoadOperations() returns (list: OperationList)
    ensures fresh(list)
    ensures list.ops == Registry()
  {
    list := new OperationList();
    list.Add(Operation("Get host date & time", 11, ["date", "time"]));
    list.Add(Operation("Get host uptime", 22, ["uptime"]));
    list.Add(Operation("Get host memory usage", 33, ["memory", "mem"]));
    list.Add(Operation("Get host netstat output", 44, ["netstat"]));
    list.Add(Operation("Get host current users", 55, ["users", "who"]));
    list.Add(Operation("Get host running processes", 66, ["process", "processes", "ps"]));
  }
}
