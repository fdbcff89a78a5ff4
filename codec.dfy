/**
 * The line codec of src/manager/FileBackedTaskManager.java: toString(Task) writes an entity as
 * comma-separated fields, fromString splits a line with String.split(",") and rebuilds an
 * entity.  Fields are not quoted, so a comma inside a name or description is not preserved.
 */
module Codec {
  import opened Wrappers
  import opened Errors
  import opened Tasks

  /** The first line save writes. */
  const Header: string := "id,type,name,status,description,epic"

  // ---------------------------------------------------------------- enum names

  /** The constant names of TaskStatus, as String.format prints them. */
  function StatusName(s: Status): string
  {
    match s
    case New => "NEW"
    case InProgress => "IN_PROGRESS"
    case Done => "DONE"
  }

  /** TaskStatus.valueOf: the constant with exactly that name, or None (an IllegalArgumentException). */
  function StatusOf(name: string): (r: Option<Status>)
    ensures r.Some? ==> StatusName(r.value) == name
  {
    if name == "NEW" then Some(New)
    else if name == "IN_PROGRESS" then Some(InProgress)
    else if name == "DONE" then Some(Done)
    else None
  }

  /** valueOf(name()) is the identity on statuses. */
  lemma StatusNameRoundTrip(s: Status)
    ensures StatusOf(StatusName(s)) == Some(s)
  {
  }

  // ---------------------------------------------------------------- integers

  /** Java's int range, which %d prints and Integer.parseInt accepts. */
  predicate InInt32(n: int)
  {
    -0x8000_0000 <= n < 0x8000_0000
  }

  predicate IsDigit(c: char)
  {
    '0' <= c <= '9'
  }

  function DigitChar(d: int): (c: char)
    requires 0 <= d < 10
    ensures IsDigit(c) && c as int - '0' as int == d
  {
    (d + '0' as int) as char
  }

  /** The decimal digits of n without leading zeros (a single 0 for zero). */
  function NatToString(n: nat): (s: string)
    ensures |s| > 0 && forall i :: 0 <= i < |s| ==> IsDigit(s[i])
    decreases n
  {
    if n < 10 then [DigitChar(n)] else NatToString(n / 10) + [DigitChar(n % 10)]
  }

  /** %d of an int. */
  function IntToString(n: int): (s: string)
    ensures |s| > 0 && ',' !in s
  {
    if n < 0 then "-" + NatToString(-n) else NatToString(n)
  }

  /** The value of a string of decimal digits. */
  function DigitsValue(s: string): nat
    requires forall i :: 0 <= i < |s| ==> IsDigit(s[i])
  {
    if s == [] then 0
    else
      assert IsDigit(s[|s| - 1]);
      DigitsValue(s[..|s| - 1]) * 10 + (s[|s| - 1] as int - '0' as int)
  }

  lemma {:induction false} DigitsValueOfNatToString(n: nat)
    ensures DigitsValue(NatToString(n)) == n
    decreases n
  {
    if n >= 10 {
      DigitsValueOfNatToString(n / 10);
      var s := NatToString(n);
      assert s[..|s| - 1] == NatToString(n / 10);
    }
  }

  /**
   * Integer.parseInt: an optional '+' or '-' followed by at least one digit, with a value inside
   * the int range; anything else is a NumberFormatException.
   */
  function ParseInt(s: string): (r: Result<int, Failure>)
    ensures r.Success? ==> InInt32(r.value)
    ensures r.Failure? ==> r.error == NumberFormat
    ensures s == [] ==> r.Failure?
  {
    if s == [] then Failure(NumberFormat)
    else
      var signed := s[0] == '-' || s[0] == '+';
      var digits := if signed then s[1..] else s;
      if digits == [] || !(forall i :: 0 <= i < |digits| ==> IsDigit(digits[i])) then Failure(NumberFormat)
      else
        var v: int := if s[0] == '-' then -(DigitsValue(digits) as int) else DigitsValue(digits);
        if InInt32(v) then Success(v) else Failure(NumberFormat)
  }

  /** parseInt reads back what %d prints, for every int. */
  lemma ParseIntRoundTrip(n: int)
    requires InInt32(n)
    ensures ParseInt(IntToString(n)) == Success(n)
  {
    var s := IntToString(n);
    if n < 0 {
      var digits := NatToString(-n);
      assert s[0] == '-' && s[1..] == digits;
      DigitsValueOfNatToString(-n);
    } else {
      assert IsDigit(s[0]);
      DigitsValueOfNatToString(n);
    }
  }

  // ---------------------------------------------------------------- splitting

  /** The pieces of s between commas, empty pieces included. */
  function SplitAll(s: string): (r: seq<string>)
    ensures |r| > 0
    ensures forall i :: 0 <= i < |r| ==> ',' !in r[i]
  {
    if s == [] then [""]
    else
      var rest := SplitAll(s[1..]);
      if s[0] == ',' then [""] + rest else [[s[0]] + rest[0]] + rest[1..]
  }

  /** Trailing empty strings dropped. */
  function DropTrailingEmpty(fs: seq<string>): (r: seq<string>)
    ensures |r| <= |fs| && r == fs[..|r|]
    ensures r != [] ==> r[|r| - 1] != ""
    ensures forall i :: |r| <= i < |fs| ==> fs[i] == ""
  {
    if fs == [] then []
    else if fs[|fs| - 1] == "" then DropTrailingEmpty(fs[..|fs| - 1])
    else fs
  }

  /**
   * String.split(","): without a comma the whole string is the only element; otherwise the
   * pieces between commas with the trailing empty pieces removed.
   */
  function JavaSplit(s: string): (r: seq<string>)
    ensures ',' !in s ==> r == [s]
    ensures forall i :: 0 <= i < |r| ==> ',' !in r[i]
  {
    if ',' !in s then [s] else DropTrailingEmpty(SplitAll(s))
  }

  /** Fields joined with commas. */
  function Join(fs: seq<string>): string
    requires |fs| > 0
  {
    if |fs| == 1 then fs[0] else fs[0] + "," + Join(fs[1..])
  }

  lemma {:induction false} SplitAllNoComma(a: string)
    requires ',' !in a
    ensures SplitAll(a) == [a]
  {
    if a != [] {
      SplitAllNoComma(a[1..]);
      assert a[0] != ',' && [a[0]] + a[1..] == a;
    }
  }

  lemma {:induction false} SplitAllAfterField(a: string, b: string)
    requires ',' !in a
    ensures SplitAll(a + "," + b) == [a] + SplitAll(b)
  {
    if a == [] {
      assert (a + "," + b)[1..] == b;
    } else {
      assert (a + "," + b)[1..] == a[1..] + "," + b;
      assert (a + "," + b)[0] == a[0] != ',';
      SplitAllAfterField(a[1..], b);
      assert [a[0]] + a[1..] == a;
    }
  }

  /** Splitting at every comma undoes joining comma-free fields. */
  lemma {:induction false} SplitAllJoin(fs: seq<string>)
    requires |fs| > 0 && forall i :: 0 <= i < |fs| ==> ',' !in fs[i]
    ensures SplitAll(Join(fs)) == fs
  {
    if |fs| == 1 {
      SplitAllNoComma(fs[0]);
    } else {
      SplitAllJoin(fs[1..]);
      SplitAllAfterField(fs[0], Join(fs[1..]));
    }
  }

  /** Java's split undoes joining at least two comma-free fields when the last one is not empty. */
  lemma JavaSplitJoin(fs: seq<string>)
    requires |fs| > 1 && forall i :: 0 <= i < |fs| ==> ',' !in fs[i]
    requires fs[|fs| - 1] != ""
    ensures JavaSplit(Join(fs)) == fs
  {
    SplitAllJoin(fs);
    assert Join(fs) == fs[0] + "," + Join(fs[1..]);
    assert Join(fs)[|fs[0]|] == ',';
  }

  /** When the last field is empty, split drops it together with every empty field before it. */
  lemma JavaSplitDropsEmptyTail(fs: seq<string>)
    requires |fs| > 1 && forall i :: 0 <= i < |fs| ==> ',' !in fs[i]
    requires fs[|fs| - 1] == ""
    ensures |JavaSplit(Join(fs))| < |fs|
  {
    SplitAllJoin(fs);
    assert Join(fs) == fs[0] + "," + Join(fs[1..]);
    assert Join(fs)[|fs[0]|] == ',';
  }

  // ---------------------------------------------------------------- the codec

  /** The fields toString(Task) writes: SUBTASK lines carry the epic id as a sixth field. */
  function Fields(e: Entity): (fs: seq<string>)
    ensures |fs| == (if e.variant.SubTask? then 6 else 5)
  {
    var kind := if e.variant.SubTask? then "SUBTASK" else if e.variant.Epic? then "EPIC" else "TASK";
    var common := [IntToString(e.id), kind, e.name, StatusName(e.status), e.description];
    if e.variant.SubTask? then common + [IntToString(e.variant.epicId)] else common
  }

  /** toString(Task). */
  function ToLine(e: Entity): string
  {
    Join(Fields(e))
  }

  /**
   * fromString: the checks happen in the order the Java code reaches them.  A missing field is
   * an index out of bounds, a bad number a NumberFormatException, an unknown status name the
   * IllegalArgumentException of valueOf (before the description is read), an unknown type
   * token the IllegalArgumentException of the switch.  The entity is built by the id constructor:
   * no start time, zero duration, an empty list for an epic.
   */
  function FromString(line: string): (r: Result<Entity, Failure>)
    ensures r.Success? ==> r.value.duration == 0 && r.value.startTime.None?
    ensures r.Success? && r.value.variant.Epic? ==> r.value.variant == Epic([], None)
    ensures r.Success? ==> InInt32(r.value.id) && (r.value.variant.SubTask? ==> InInt32(r.value.variant.epicId))
  {
    var fields := JavaSplit(line);
    if |fields| < 1 then Failure(IndexOutOfBounds)
    else
      var id := ParseInt(fields[0]);
      if id.Failure? then Failure(id.error)
      else if |fields| < 4 then Failure(IndexOutOfBounds)
      else
        var kind, name, status := fields[1], fields[2], StatusOf(fields[3]);
        if status.None? then Failure(UnknownStatus)
        else if |fields| < 5 then Failure(IndexOutOfBounds)
        else
          var description := fields[4];
          if kind == "TASK" then Success(MakeTask(id.value, name, description, status.value, 0))
          else if kind == "EPIC" then Success(MakeEpic(id.value, name, description, status.value))
          else if kind == "SUBTASK" then
            if |fields| < 6 then Failure(IndexOutOfBounds)
            else
              var epicId := ParseInt(fields[5]);
              if epicId.Failure? then Failure(epicId.error)
              else Success(MakeSubTask(epicId.value, id.value, name, description, status.value, 0))
          else Failure(UnknownType)
  }

  /** What a line keeps of an entity: no schedule, and an epic loses its subtask list. */
  function Stripped(e: Entity): Entity
  {
    e.(duration := 0, startTime := None, variant := if e.variant.Epic? then Epic([], None) else e.variant)
  }

  /**
   * The round trip: when the ids fit an int, the name and description hold no comma, and the
   * description of a task or epic is not empty, reading a written line gives back the entity
   * without its schedule and subtask list; it is equal to the original under equals exactly
   * when it is not an epic with subtasks.
   */
  lemma RoundTrip(e: Entity)
    requires InInt32(e.id) && (e.variant.SubTask? ==> InInt32(e.variant.epicId))
    requires ',' !in e.name && ',' !in e.description
    requires !e.variant.SubTask? ==> e.description != ""
    ensures FromString(ToLine(e)) == Success(Stripped(e))
    ensures Equal(FromString(ToLine(e)).value, e) <==> (e.variant.Epic? ==> e.variant.subTaskIds == [])
  {
    var fs := Fields(e);
    FieldsSplitBack(e);
    ParseIntRoundTrip(e.id);
    StatusNameRoundTrip(e.status);
    if e.variant.SubTask? {
      ParseIntRoundTrip(e.variant.epicId);
    }
    assert FromString(ToLine(e)) == Success(Stripped(e));
    StrippedEqual(e);
  }

  /** split(",") on a written line gives back the fields it was joined from. */
  lemma FieldsSplitBack(e: Entity)
    requires ',' !in e.name && ',' !in e.description
    requires !e.variant.SubTask? ==> e.description != ""
    ensures JavaSplit(ToLine(e)) == Fields(e)
  {
    var fs := Fields(e);
    assert forall i :: 0 <= i < |fs| ==> ',' !in fs[i] by {
      StatusHasNoComma(e.status);
    }
    JavaSplitJoin(fs);
  }

  /** What a line keeps is equal to the original under equals unless an epic lost its subtask list. */
  lemma StrippedEqual(e: Entity)
    ensures Equal(Stripped(e), e) <==> (e.variant.Epic? ==> e.variant.subTaskIds == [])
  {
  }

  lemma StatusHasNoComma(s: Status)
    ensures ',' !in StatusName(s)
  {
  }

  /** A task or epic with an empty description cannot be read back: its last field is dropped by split. */
  lemma EmptyDescriptionLost(e: Entity)
    requires !e.variant.SubTask? && e.description == ""
    requires InInt32(e.id) && ',' !in e.name
    ensures FromString(ToLine(e)) == Failure(IndexOutOfBounds)
  {
    var fs := Fields(e);
    assert forall i :: 0 <= i < |fs| ==> ',' !in fs[i] by {
      StatusHasNoComma(e.status);
    }
    SplitAllJoin(fs);
    assert Join(fs) == fs[0] + "," + Join(fs[1..]);
    assert Join(fs)[|fs[0]|] == ',';
    var r := JavaSplit(Join(fs));
    assert r == DropTrailingEmpty(fs);
    assert |r| < 5 && r == fs[..|r|];
    if |r| >= 4 {
      assert r[3] == StatusName(e.status);
      StatusNameRoundTrip(e.status);
    }
    ParseIntRoundTrip(e.id);
  }

  /** A type token other than TASK, EPIC and SUBTASK is refused once the first five fields read. */
  lemma UnknownTypeRefused(id: int, kind: string, name: string, status: Status, description: string)
    requires InInt32(id) && kind != "TASK" && kind != "EPIC" && kind != "SUBTASK"
    requires ',' !in kind && ',' !in name && ',' !in description && description != ""
    ensures FromString(Join([IntToString(id), kind, name, StatusName(status), description])) == Failure(UnknownType)
  {
    var fs := [IntToString(id), kind, name, StatusName(status), description];
    StatusHasNoComma(status);
    JavaSplitJoin(fs);
    ParseIntRoundTrip(id);
    StatusNameRoundTrip(status);
  }
}
