/**
 * The LINKTYPE table generator: it reads the IETF link-type registry (one
 * record per line, fields separated by '|'), splits the records into single
 * values and value ranges, and prints a C++ `linktype_t` enumeration
 * followed by a table of names.
 *
 * The printed output is modelled as a sequence of lines. The enumeration
 * and the table are first built as structured lines (`EnumLine`,
 * `TableLine`) and then rendered to text.
 */
module LinktypeGen {
  import opened Wrappers
  import opened LinktypeText

  // ---------------------------------------------------------------------
  // Records

  /** A registry record: name without "LINKTYPE_", value text, description. */
  datatype Record = Record(name: string, value: string, desc: string)

  /** A record with a single value: `(name, int(value), desc)`. */
  datatype Entry = Entry(name: string, value: nat, desc: string)

  /** A record with a value range: its lower bound and the comment printed for it. */
  datatype Range = Range(low: nat, text: string)

  /** The exceptions the parsing raises. */
  datatype Error = IndexError | ValueError

  // ---------------------------------------------------------------------
  // Parsing

  /** Each field with its surrounding whitespace removed. */
  function StripAll(parts: seq<string>): (r: seq<string>)
    ensures |r| == |parts|
    ensures forall i :: 0 <= i < |r| ==> r[i] == Strip(parts[i])
  {
    seq(|parts|, i requires 0 <= i < |parts| => Strip(parts[i]))
  }

  /** The nonempty fields, in order. */
  function NonEmpty(parts: seq<string>): (r: seq<string>)
    ensures |r| <= |parts|
    ensures forall i :: 0 <= i < |r| ==> r[i] != "" && r[i] in parts
    ensures "" !in parts ==> r == parts
  {
    if parts == [] then []
    else if parts[0] == "" then NonEmpty(parts[1..])
    else [parts[0]] + NonEmpty(parts[1..])
  }

  /** Every '"' removed from each field. */
  function Dequote(parts: seq<string>): (r: seq<string>)
    ensures |r| == |parts|
    ensures forall i :: 0 <= i < |r| ==> r[i] == Remove(parts[i], '"')
  {
    seq(|parts|, i requires 0 <= i < |parts| => Remove(parts[i], '"'))
  }

  /**
   * The fields of one line: split on '|', stripped, the empty ones dropped,
   * then de-quoted. The emptiness test comes before the de-quoting, so a
   * field holding only quotes survives as an empty field.
   */
  function Fields(line: string): (r: seq<string>)
    ensures forall i :: 0 <= i < |r| ==> '"' !in r[i]
    ensures |r| <= |Split(line, '|')|
  {
    Dequote(NonEmpty(StripAll(Split(line, '|'))))
  }

  /** `(l[0].removeprefix('LINKTYPE_'), l[1], l[2])`: `IndexError` below three fields. */
  function ToRecord(fields: seq<string>): (r: Result<Record, Error>)
    ensures r.Failure? <==> |fields| < 3
    ensures r.Failure? ==> r.error == IndexError
    ensures r.Success? ==> r.value.value == fields[1] && r.value.desc == fields[2]
    ensures r.Success? ==> (if "LINKTYPE_" <= fields[0] then "LINKTYPE_" + r.value.name else r.value.name) == fields[0]
  {
    if |fields| < 3 then Failure(IndexError)
    else Success(Record(RemovePrefix(fields[0], "LINKTYPE_"), fields[1], fields[2]))
  }

  /** The fields of every line. */
  function Rows(lines: seq<string>): (r: seq<seq<string>>)
    ensures |r| == |lines| && forall i :: 0 <= i < |lines| ==> r[i] == Fields(lines[i])
  {
    seq(|lines|, i requires 0 <= i < |lines| => Fields(lines[i]))
  }

  /**
   * Converting every element, as `list(map(...))` does: the first failure
   * is raised, otherwise all results in order.
   */
  function Collect<T>(rs: seq<Result<T, Error>>): (r: Result<seq<T>, Error>)
    ensures r.Success? <==> forall i :: 0 <= i < |rs| ==> rs[i].Success?
    ensures r.Success? ==> |r.value| == |rs| && forall i :: 0 <= i < |rs| ==> rs[i] == Success(r.value[i])
    ensures r.Failure? ==> exists i :: 0 <= i < |rs| && rs[i] == Failure(r.error) && forall j :: 0 <= j < i ==> rs[j].Success?
  {
    if rs == [] then Success([])
    else if rs[0].Failure? then Failure(rs[0].error)
    else
      var rest := Collect(rs[1..]);
      if rest.Failure? then
        var i :| 0 <= i < |rs| - 1 && rs[1..][i] == Failure(rest.error) && forall j :: 0 <= j < i ==> rs[1..][j].Success?;
        assert rs[i + 1] == Failure(rest.error) && forall j :: 0 <= j < i + 1 ==> rs[j].Success?;
        Failure(rest.error)
      else
        assert forall i :: 1 <= i < |rs| ==> rs[i] == rs[1..][i - 1];
        Success([rs[0].value] + rest.value)
  }

  /** The records of all lines; the first short line raises `IndexError`. */
  function Records(rows: seq<seq<string>>): (r: Result<seq<Record>, Error>)
    ensures r.Failure? <==> exists i :: 0 <= i < |rows| && |rows[i]| < 3
    ensures r.Failure? ==> r.error == IndexError
    ensures r.Success? ==> |r.value| == |rows|
    ensures r.Success? ==> forall i :: 0 <= i < |rows| ==> ToRecord(rows[i]) == Success(r.value[i])
  {
    var rs := seq(|rows|, i requires 0 <= i < |rows| => ToRecord(rows[i]));
    assert forall i :: 0 <= i < |rows| ==> rs[i] == ToRecord(rows[i]);
    Collect(rs)
  }

  /** The records whose value has no '-', in input order. */
  function Singles(records: seq<Record>): (r: seq<Record>)
    ensures forall i :: 0 <= i < |r| ==> '-' !in r[i].value && r[i] in records
  {
    if records == [] then []
    else if '-' in records[0].value then Singles(records[1..])
    else [records[0]] + Singles(records[1..])
  }

  /** The records whose value has a '-', in input order. */
  function RangeRecords(records: seq<Record>): (r: seq<Record>)
    ensures forall i :: 0 <= i < |r| ==> '-' in r[i].value && r[i] in records
  {
    if records == [] then []
    else if '-' in records[0].value then [records[0]] + RangeRecords(records[1..])
    else RangeRecords(records[1..])
  }

  /** The two filters split the records between them: each record goes to exactly one. */
  lemma {:induction false} Partition(records: seq<Record>)
    ensures |Singles(records)| + |RangeRecords(records)| == |records|
    ensures multiset(Singles(records)) + multiset(RangeRecords(records)) == multiset(records)
  {
    if records != [] {
      Partition(records[1..]);
      assert records == [records[0]] + records[1..];
    }
  }

  /** `(name, int(value), desc)`. */
  function ToEntry(record: Record): (r: Result<Entry, Error>)
    requires '-' !in record.value
    ensures r.Failure? <==> ParseUnsigned(record.value).None?
    ensures r.Failure? ==> r.error == ValueError
    ensures r.Success? ==> r.value == Entry(record.name, ParseUnsigned(record.value).value, record.desc)
  {
    match ParseUnsigned(record.value)
    case None => Failure(ValueError)
    case Some(v) => Success(Entry(record.name, v, record.desc))
  }

  /** The single entries, in order; a value `int()` refuses raises `ValueError`. */
  function Entries(singles: seq<Record>): (r: Result<seq<Entry>, Error>)
    requires forall i :: 0 <= i < |singles| ==> '-' !in singles[i].value
    ensures r.Failure? <==> exists i :: 0 <= i < |singles| && ToEntry(singles[i]).Failure?
    ensures r.Failure? ==> r.error == ValueError
    ensures r.Success? ==> |r.value| == |singles|
    ensures r.Success? ==> forall i :: 0 <= i < |singles| ==> ToEntry(singles[i]) == Success(r.value[i])
  {
    var rs := seq(|singles|, i requires 0 <= i < |singles| => ToEntry(singles[i]));
    assert forall i :: 0 <= i < |singles| ==> rs[i] == ToEntry(singles[i]);
    Collect(rs)
  }

  /** `(int(value.split('-')[0]), f'/* {name}; {value}; {desc} */')`. */
  function ToRange(record: Record): (r: Result<Range, Error>)
    ensures r.Failure? <==> ParseUnsigned(Split(record.value, '-')[0]).None?
    ensures r.Failure? ==> r.error == ValueError
    ensures r.Success? ==> r.value.low == ParseUnsigned(Split(record.value, '-')[0]).value
    ensures r.Success? ==> r.value.text == "/* " + record.name + "; " + record.value + "; " + record.desc + " */"
  {
    match ParseUnsigned(Split(record.value, '-')[0])
    case None => Failure(ValueError)
    case Some(low) => Success(Range(low, "/* " + record.name + "; " + record.value + "; " + record.desc + " */"))
  }

  /** The range records, in order; a lower bound `int()` refuses raises `ValueError`. */
  function RangeList(records: seq<Record>): (r: Result<seq<Range>, Error>)
    ensures r.Failure? <==> exists i :: 0 <= i < |records| && ToRange(records[i]).Failure?
    ensures r.Failure? ==> r.error == ValueError
    ensures r.Success? ==> |r.value| == |records|
    ensures r.Success? ==> forall i :: 0 <= i < |records| ==> ToRange(records[i]) == Success(r.value[i])
  {
    var rs := seq(|records|, i requires 0 <= i < |records| => ToRange(records[i]));
    assert forall i :: 0 <= i < |records| ==> rs[i] == ToRange(records[i]);
    Collect(rs)
  }

  // ---------------------------------------------------------------------
  // Sorting the ranges

  /** Python's `<=` on strings: code point by code point, a prefix first. */
  predicate StrLe(a: string, b: string)
  {
    a == [] || (b != [] && (a[0] < b[0] || (a[0] == b[0] && StrLe(a[1..], b[1..]))))
  }

  lemma {:induction false} StrLeTotal(a: string, b: string)
    ensures StrLe(a, b) || StrLe(b, a)
  {
    if a != [] && b != [] && a[0] == b[0] {
      StrLeTotal(a[1..], b[1..]);
    }
  }

  /** Python's `<=` on the tuples `(low, text)`. */
  predicate RangeLe(a: Range, b: Range)
  {
    a.low < b.low || (a.low == b.low && StrLe(a.text, b.text))
  }

  predicate Sorted(s: seq<Range>)
  {
    forall i :: 0 < i < |s| ==> RangeLe(s[i - 1], s[i])
  }

  /** x placed before the first element it does not exceed. */
  function Insert(x: Range, s: seq<Range>): (r: seq<Range>)
    requires Sorted(s)
    ensures Sorted(r)
    ensures multiset(r) == multiset(s) + multiset{x}
    ensures |r| == |s| + 1 && (r[0] == x || (s != [] && r[0] == s[0]))
  {
    if s == [] || RangeLe(x, s[0]) then [x] + s
    else
      StrLeTotal(x.text, s[0].text);
      var rest := Insert(x, s[1..]);
      assert s == [s[0]] + s[1..];
      [s[0]] + rest
  }

  /** `sorted(ranges)`. */
  function Sort(s: seq<Range>): (r: seq<Range>)
    ensures Sorted(r)
    ensures |r| == |s|
    ensures multiset(r) == multiset(s)
  {
    if s == [] then []
    else
      assert s == [s[0]] + s[1..];
      Insert(s[0], Sort(s[1..]))
  }

  /** In sorted ranges the lower bounds never decrease, between any two positions. */
  lemma {:induction false} SortedLows(s: seq<Range>, i: nat, j: nat)
    requires Sorted(s) && i <= j < |s|
    ensures s[i].low <= s[j].low
    decreases j - i
  {
    if i < j {
      SortedLows(s, i + 1, j);
    }
  }

  // ---------------------------------------------------------------------
  // The whole parse

  /**
   * The pipeline of `main`: every line becomes a record (first `IndexError`
   * wins, since all records are built before anything else); then the
   * single entries are converted, then the ranges, which come out sorted.
   */
  function Parse(lines: seq<string>): (r: Result<(seq<Entry>, seq<Range>), Error>)
    ensures r.Success? ==> Sorted(r.value.1)
    ensures (exists i :: 0 <= i < |lines| && |Fields(lines[i])| < 3) ==> r == Failure(IndexError)
  {
    match Records(Rows(lines))
    case Failure(e) => Failure(e)
    case Success(records) =>
      match Entries(Singles(records))
      case Failure(e) => Failure(e)
      case Success(data) =>
        match RangeList(RangeRecords(records))
        case Failure(e) => Failure(e)
        case Success(ranges) => Success((data, Sort(ranges)))
  }

  /**
   * A successful parse has one entry per record without '-' and one range
   * per record with '-', each entry from its record in input order, and
   * the ranges a permutation of the range records' conversions.
   */
  lemma ParseResult(lines: seq<string>)
    requires Parse(lines).Success?
    ensures Records(Rows(lines)).Success?
    ensures var records := Records(Rows(lines)).value; var (data, ranges) := Parse(lines).value;
            |data| + |ranges| == |lines| &&
            Entries(Singles(records)) == Success(data) &&
            RangeList(RangeRecords(records)).Success? &&
            multiset(ranges) == multiset(RangeList(RangeRecords(records)).value)
  {
    var records := Records(Rows(lines)).value;
    Partition(records);
    var data := Entries(Singles(records)).value;
    var unsorted := RangeList(RangeRecords(records)).value;
    assert Parse(lines).value == (data, Sort(unsorted));
  }

  // ---------------------------------------------------------------------
  // The enumeration

  const PrivUseBeg: nat := 0xFDE9
  const PrivUseEnd: nat := 0xFFFF
  /** The number of private use slots. */
  const PrivCount: nat := PrivUseEnd - PrivUseBeg + 1

  datatype EnumLine =
    | EnumOpen
    | Member(name: string, value: nat, doc: string)
    | RangeComment(low: nat, text: string)
    | EnumClose

  /** The BSD loopback entry is printed under another name. */
  function Rename(name: string): (r: string)
    ensures name != "NULL" ==> r == name
    ensures r != "NULL"
  {
    if name == "NULL" then "BSD_LOOPBACK" else name
  }

  function MemberOf(e: Entry): EnumLine
  {
    Member(Rename(e.name), e.value, e.desc)
  }

  /**
   * The entries part of `generate_enum` as written: each entry's member,
   * and when ranges remain and the value exceeds the lowest remaining
   * bound, the comment of the range popped from the END of the list.
   * Also gives the ranges left over.
   */
  function Body(data: seq<Entry>, ranges: seq<Range>): (r: (seq<EnumLine>, seq<Range>))
    ensures |r.1| <= |ranges|
  {
    if data == [] then ([], ranges)
    else
      var e := data[0];
      if |ranges| > 0 && e.value > ranges[0].low then
        var last := ranges[|ranges| - 1];
        var (rest, left) := Body(data[1..], ranges[..|ranges| - 1]);
        ([MemberOf(e), RangeComment(last.low, last.text)] + rest, left)
      else
        var (rest, left) := Body(data[1..], ranges);
        ([MemberOf(e)] + rest, left)
  }

  /** The lines Body prints. */
  function Lines(data: seq<Entry>, ranges: seq<Range>): seq<EnumLine>
  {
    Body(data, ranges).0
  }

  /** The ranges Body leaves over. */
  function Left(data: seq<Entry>, ranges: seq<Range>): seq<Range>
  {
    Body(data, ranges).1
  }

  /** `f'PRIVATE_USE_{k:03d}'`. */
  function PrivName(k: nat): string
  {
    "PRIVATE_USE_" + Decimal3(k)
  }

  /** The member for private use slot k. */
  function Slot(k: nat): EnumLine
  {
    Member(PrivName(k), PrivUseBeg + k, "Reserved for private use")
  }

  /** The private use members proper, slot 0 to slot k - 1. */
  function PrivMembers(k: nat): (r: seq<EnumLine>)
    ensures |r| == k && forall j :: 0 <= j < k ==> r[j] == Slot(j)
  {
    seq(k, j requires 0 <= j < k => Slot(j))
  }

  const BegLine: EnumLine := Member("PRIVATE_USE_BEG", PrivUseBeg, "Beginning of private use range")
  const EndLine: EnumLine := Member("PRIVATE_USE_END", PrivUseEnd, "End of private use range")

  /** The private use block: the BEG marker, every slot, the END marker. */
  function PrivateBlock(): (r: seq<EnumLine>)
    ensures |r| == PrivCount + 2
  {
    PrivBlock(PrivCount)
  }

  /** BEG, slots 0 to total - 1, END. */
  function PrivBlock(total: nat): (r: seq<EnumLine>)
    ensures |r| == total + 2
  {
    [BegLine] + PrivMembers(total) + [EndLine]
  }

  /** Every line of the private use block declares a member. */
  lemma PrivateBlockMembers()
    ensures forall k :: 0 <= k < |PrivateBlock()| ==> PrivateBlock()[k].Member?
  {
    var slots := PrivMembers(PrivCount);
    assert PrivateBlock() == [BegLine] + slots + [EndLine];
    forall k | 0 <= k < |PrivateBlock()|
      ensures PrivateBlock()[k].Member?
    {
      if 0 < k < PrivCount + 1 {
        assert PrivateBlock()[k] == slots[k - 1] == Slot(k - 1);
      }
    }
  }

  /** Between the opening and closing lines, the body and the block hold only members and comments. */
  lemma EnumInterior(data: seq<Entry>, ranges: seq<Range>)
    ensures var r := [EnumOpen] + Lines(data, ranges) + PrivateBlock() + [EnumClose];
      forall k :: 0 < k < |r| - 1 ==> r[k].Member? || r[k].RangeComment?
  {
    BodyShape(data, ranges);
    PrivateBlockMembers();
    var body, block := Lines(data, ranges), PrivateBlock();
    var r := [EnumOpen] + body + block + [EnumClose];
    forall k | 0 < k < |r| - 1
      ensures r[k].Member? || r[k].RangeComment?
    {
      if k <= |body| {
        assert r[k] == body[k - 1];
      } else {
        assert r[k] == block[k - 1 - |body|];
      }
    }
  }

  /**
   * The whole enumeration `generate_enum` prints: the opening line, then
   * only members and range comments, the private use block among them,
   * then the closing line.
   */
  function Enum(data: seq<Entry>, ranges: seq<Range>): (r: seq<EnumLine>)
    ensures |r| == |Lines(data, ranges)| + PrivCount + 4
    ensures r[0] == EnumOpen && r[|r| - 1] == EnumClose
    ensures forall k :: 0 < k < |r| - 1 ==> r[k].Member? || r[k].RangeComment?
  {
    EnumInterior(data, ranges);
    [EnumOpen] + Lines(data, ranges) + PrivateBlock() + [EnumClose]
  }

  /** One iteration of the entries loop, as a step of Body. */
  lemma BodyStep(data: seq<Entry>, i: nat, cur: seq<Range>)
    requires i < |data|
    ensures |cur| > 0 && data[i].value > cur[0].low ==>
              Lines(data[i..], cur)
                == [MemberOf(data[i]), RangeComment(cur[|cur| - 1].low, cur[|cur| - 1].text)] + Lines(data[i + 1..], cur[..|cur| - 1]) &&
              Left(data[i..], cur) == Left(data[i + 1..], cur[..|cur| - 1])
    ensures !(|cur| > 0 && data[i].value > cur[0].low) ==>
              Lines(data[i..], cur) == [MemberOf(data[i])] + Lines(data[i + 1..], cur) &&
              Left(data[i..], cur) == Left(data[i + 1..], cur)
  {
    assert data[i..][0] == data[i] && data[i..][1..] == data[i + 1..];
  }

  /** What a private use loop over total slots has printed after its first n iterations. */
  function PrivPart(n: nat, total: nat): seq<EnumLine>
    requires n <= total
  {
    if n == 0 then [] else if n == total then PrivBlock(total) else [BegLine] + PrivMembers(n)
  }

  /** One more slot appends that slot. */
  lemma PrivMembersSnoc(n: nat)
    ensures PrivMembers(n + 1) == PrivMembers(n) + [Slot(n)]
  {
    var a := PrivMembers(n + 1);
    var b := PrivMembers(n) + [Slot(n)];
    forall j | 0 <= j < n + 1
      ensures a[j] == b[j]
    {
      if j < n {
        assert b[j] == PrivMembers(n)[j];
      }
    }
  }

  /** What iteration n of a private use loop over total slots prints: BEG comes with the first slot, END with the last. */
  function Printed(n: nat, total: nat): seq<EnumLine>
  {
    if n == 0 then [BegLine, Slot(n)] else if n < total - 1 then [Slot(n)] else [Slot(n), EndLine]
  }

  /** One iteration of the private use loop appends what it prints. */
  lemma PrivPartStep(n: nat, total: nat)
    requires n < total && 1 < total
    ensures PrivPart(n + 1, total) == PrivPart(n, total) + Printed(n, total)
  {
    PrivMembersSnoc(n);
    if n == 0 {
      assert PrivMembers(0) == [];
    } else if n < total - 1 {
      ConsSnoc(BegLine, PrivMembers(n), Slot(n));
    } else {
      ConsSnoc2(BegLine, PrivMembers(n), Slot(n), EndLine);
    }
  }

  lemma Assoc<T>(a: seq<T>, b: seq<T>, c: seq<T>)
    ensures a + (b + c) == a + b + c
  {
  }

  lemma Append2<T>(s: seq<T>, x: T, y: T)
    ensures s + [x] + [y] == s + [x, y]
  {
  }

  lemma ConsSnoc<T>(a: T, s: seq<T>, x: T)
    ensures [a] + (s + [x]) == [a] + s + [x]
  {
  }

  lemma ConsSnoc2<T>(a: T, s: seq<T>, x: T, y: T)
    ensures [a] + (s + [x]) + [y] == [a] + s + [x, y]
  {
  }

  /** The private use loop of `generate_enum`: BEG, every slot, END. */
  method PrivateUseLines() returns (lines: seq<EnumLine>)
    ensures lines == PrivateBlock()
  {
    lines := [];
    var raw := PrivUseBeg;
    while raw <= PrivUseEnd
      invariant PrivUseBeg <= raw <= PrivUseEnd + 1
      invariant lines == PrivPart(raw - PrivUseBeg, PrivCount)
    {
      var priv := raw - PrivUseBeg;
      PrivPartStep(priv, PrivCount);
      ghost var before := lines;
      var m := Member(PrivName(priv), raw, "Reserved for private use");
      if raw == PrivUseBeg {
        lines := lines + [BegLine];
      }
      lines := lines + [m];
      if raw == PrivUseEnd {
        lines := lines + [EndLine];
      }
      assert lines == before + Printed(priv, PrivCount) by {
        assert m == Slot(priv);
        if priv == 0 {
          Append2(before, BegLine, m);
        } else if priv == PrivCount - 1 {
          Append2(before, m, EndLine);
        }
      }
      raw := raw + 1;
    }
  }

  /**
   * `generate_enum(data, ranges)`: loops over the entries, popping from
   * `ranges`, then over the private use slots. Gives the printed lines and
   * what is left of `ranges`.
   */
  method GenerateEnum(data: seq<Entry>, ranges: seq<Range>) returns (lines: seq<EnumLine>, left: seq<Range>)
    ensures lines == Enum(data, ranges)
    ensures left == Left(data, ranges)
  {
    var body: seq<EnumLine> := [];
    left := ranges;
    var i := 0;
    assert data[0..] == data;
    while i < |data|
      invariant i <= |data|
      invariant Lines(data, ranges) == body + Lines(data[i..], left)
      invariant Left(data, ranges) == Left(data[i..], left)
    {
      var e := data[i];
      BodyStep(data, i, left);
      ghost var before := body;
      if |left| > 0 && e.value > left[0].low {
        var popped := left[|left| - 1];
        ghost var rest := Lines(data[i + 1..], left[..|left| - 1]);
        left := left[..|left| - 1];
        body := body + [MemberOf(e), RangeComment(popped.low, popped.text)];
        Assoc(before, [MemberOf(e), RangeComment(popped.low, popped.text)], rest);
      } else {
        ghost var rest := Lines(data[i + 1..], left);
        body := body + [MemberOf(e)];
        Assoc(before, [MemberOf(e)], rest);
      }
      i := i + 1;
    }
    assert Lines(data, ranges) == body by {
      assert data[|data|..] == [];
      assert body + [] == body;
    }
    var block := PrivateUseLines();
    lines := [EnumOpen] + body + block;
    lines := lines + [EnumClose];
  }

  // ---------------------------------------------------------------------
  // Properties of the enumeration

  /** The member lines among some lines, in order. */
  function Members(lines: seq<EnumLine>): (r: seq<EnumLine>)
    ensures |r| <= |lines|
    ensures forall i :: 0 <= i < |r| ==> r[i].Member?
  {
    if lines == [] then []
    else if lines[0].Member? then [lines[0]] + Members(lines[1..])
    else Members(lines[1..])
  }

  /** The range comment lines among some lines, in order. */
  function Comments(lines: seq<EnumLine>): (r: seq<EnumLine>)
    ensures |r| <= |lines|
    ensures forall i :: 0 <= i < |r| ==> r[i].RangeComment?
  {
    if lines == [] then []
    else if lines[0].RangeComment? then [lines[0]] + Comments(lines[1..])
    else Comments(lines[1..])
  }

  /** The comment lines for some ranges, in the same order. */
  function CommentsOf(ranges: seq<Range>): (r: seq<EnumLine>)
    ensures |r| == |ranges|
    ensures forall i :: 0 <= i < |r| ==> r[i] == RangeComment(ranges[i].low, ranges[i].text)
  {
    seq(|ranges|, i requires 0 <= i < |ranges| => RangeComment(ranges[i].low, ranges[i].text))
  }

  function Reverse<T>(s: seq<T>): (r: seq<T>)
    ensures |r| == |s|
    ensures forall i :: 0 <= i < |s| ==> r[i] == s[|s| - 1 - i]
  {
    if s == [] then [] else Reverse(s[1..]) + [s[0]]
  }

  /** One member per entry, in order, with NULL renamed; nothing else is a member. */
  lemma {:induction false} BodyMembers(data: seq<Entry>, ranges: seq<Range>)
    ensures Members(Body(data, ranges).0) == seq(|data|, i requires 0 <= i < |data| => MemberOf(data[i]))
  {
    if data != [] {
      var e := data[0];
      if |ranges| > 0 && e.value > ranges[0].low {
        BodyMembers(data[1..], ranges[..|ranges| - 1]);
      } else {
        BodyMembers(data[1..], ranges);
      }
    }
  }

  /** Dropping the last element keeps every shorter prefix and splits off the suffixes' last element. */
  lemma DropLast<T>(s: seq<T>, n: nat)
    requires n < |s|
    ensures s[..|s| - 1][..n] == s[..n]
    ensures s[n..] == s[..|s| - 1][n..] + [s[|s| - 1]]
  {
  }

  /** Dropping the first element shifts every suffix and splits off the prefixes' first element. */
  lemma DropFirst<T>(s: seq<T>, n: nat)
    requires n < |s|
    ensures s[1..][n..] == s[n + 1..]
    ensures s[..n + 1] == [s[0]] + s[1..][..n]
  {
  }

  lemma CommentsOfCons(r: Range, rs: seq<Range>)
    ensures CommentsOf([r] + rs) == [RangeComment(r.low, r.text)] + CommentsOf(rs)
  {
  }

  lemma CommentsOfSnoc(rs: seq<Range>, r: Range)
    ensures CommentsOf(rs + [r]) == CommentsOf(rs) + [RangeComment(r.low, r.text)]
  {
  }

  /**
   * The comments are those of the ranges popped from the end: what is left
   * is a prefix of the ranges, and the comments are the rest, last first.
   * So every range is either left over or printed exactly once.
   */
  lemma {:induction false} BodyComments(data: seq<Entry>, ranges: seq<Range>)
    ensures Left(data, ranges) == ranges[..|Left(data, ranges)|]
    ensures Comments(Lines(data, ranges)) == Reverse(CommentsOf(ranges[|Left(data, ranges)|..]))
    ensures |Left(data, ranges)| + |Comments(Lines(data, ranges))| == |ranges|
  {
    if data != [] {
      var e := data[0];
      if |ranges| > 0 && e.value > ranges[0].low {
        var shorter := ranges[..|ranges| - 1];
        BodyComments(data[1..], shorter);
        var rest := Lines(data[1..], shorter);
        var left := Left(data[1..], shorter);
        var last := ranges[|ranges| - 1];
        var c := RangeComment(last.low, last.text);
        assert Lines(data, ranges) == [MemberOf(e), c] + rest;
        assert Left(data, ranges) == left;
        CommentsConcat([MemberOf(e), c], rest);
        assert Comments([MemberOf(e), c]) == [c] by {
          assert [MemberOf(e), c][1..] == [c];
          assert [c][1..] == [];
        }
        DropLast(ranges, |left|);
        assert CommentsOf(ranges[|left|..]) == CommentsOf(shorter[|left|..]) + [c] by {
          CommentsOfSnoc(shorter[|left|..], last);
        }
        ReverseSnoc(CommentsOf(shorter[|left|..]), c);
      } else {
        BodyComments(data[1..], ranges);
        var rest := Lines(data[1..], ranges);
        assert Lines(data, ranges) == [MemberOf(e)] + rest;
        assert Left(data, ranges) == Left(data[1..], ranges);
        CommentsConcat([MemberOf(e)], rest);
        assert Comments([MemberOf(e)]) == [] by {
          assert [MemberOf(e)][1..] == [];
        }
      }
    }
  }

  lemma ReverseSnoc<T>(s: seq<T>, x: T)
    ensures Reverse(s + [x]) == [x] + Reverse(s)
  {
  }

  /**
   * Every comment directly follows a member, so no member is followed by
   * more than one comment; the body is made of members and comments only.
   */
  lemma {:induction false} BodyShape(data: seq<Entry>, ranges: seq<Range>)
    ensures forall i :: 0 <= i < |Lines(data, ranges)| ==> Lines(data, ranges)[i].Member? || Lines(data, ranges)[i].RangeComment?
    ensures forall i :: 0 <= i < |Lines(data, ranges)| && Lines(data, ranges)[i].RangeComment? ==> i > 0 && Lines(data, ranges)[i - 1].Member?
  {
    if data != [] {
      var e := data[0];
      var popped := |ranges| > 0 && e.value > ranges[0].low;
      var next := if popped then ranges[..|ranges| - 1] else ranges;
      var step := if popped then [MemberOf(e), RangeComment(ranges[|ranges| - 1].low, ranges[|ranges| - 1].text)]
                  else [MemberOf(e)];
      BodyShape(data[1..], next);
      var rest := Lines(data[1..], next);
      var lines := Lines(data, ranges);
      assert lines == step + rest;
      forall i | 0 <= i < |lines|
        ensures lines[i].Member? || lines[i].RangeComment?
        ensures lines[i].RangeComment? ==> i > 0 && lines[i - 1].Member?
      {
        if i >= |step| {
          var j := i - |step|;
          assert lines[i] == rest[j];
          assert rest[j].Member? || rest[j].RangeComment?;
          if j > 0 {
            assert lines[i - 1] == rest[j - 1];
          } else {
            assert lines[i - 1] == step[|step| - 1];
          }
        } else {
          assert lines[i] == step[i];
          if i > 0 {
            assert lines[i - 1] == step[i - 1];
          }
        }
      }
    }
  }

  /**
   * The private use block: 537 lines, the BEG marker, slots 0 to 534 with
   * values 0xFDE9 to 0xFFFF, the END marker; the markers repeat the values
   * of the first and the last slot.
   */
  lemma PrivateBlockLayout()
    ensures PrivCount == 535
    ensures PrivateBlock()[0] == BegLine && BegLine.value == 0xFDE9
    ensures PrivateBlock()[PrivCount + 1] == EndLine && EndLine.value == 0xFFFF
    ensures forall k :: 0 <= k < PrivCount ==> PrivateBlock()[k + 1] == Slot(k)
    ensures forall i :: 0 <= i < |PrivateBlock()| ==>
              PrivateBlock()[i].Member? && PrivUseBeg <= PrivateBlock()[i].value <= PrivUseEnd
    ensures Slot(0).value == BegLine.value && Slot(PrivCount - 1).value == EndLine.value
  {
    var b := PrivateBlock();
    var priv := PrivMembers(PrivCount);
    assert b == [BegLine] + priv + [EndLine];
    forall k | 0 <= k < PrivCount
      ensures b[k + 1] == Slot(k)
    {
      assert b[k + 1] == priv[k];
    }
    forall i | 0 <= i < |b|
      ensures b[i].Member? && PrivUseBeg <= b[i].value <= PrivUseEnd
    {
      if 0 < i < |b| - 1 {
        assert b[i] == Slot(i - 1);
      }
    }
  }

  /** Distinct slots have distinct names: the three digits read back as the slot. */
  lemma PrivNamesDistinct(j: nat, k: nat)
    requires j != k
    ensures PrivName(j) != PrivName(k)
  {
    ParseDecimal(j);
    ParseDecimal(k);
    assert Decimal3(j) != Decimal3(k);
    assert PrivName(j)[12..] == Decimal3(j);
    assert PrivName(k)[12..] == Decimal3(k);
  }

  /** No slot is named like a marker: the slot names end in digits. */
  lemma PrivNamesNotMarkers(k: nat)
    ensures PrivName(k) != "PRIVATE_USE_BEG" && PrivName(k) != "PRIVATE_USE_END"
  {
    var d := Decimal3(k);
    assert IsDigit(PrivName(k)[12]) by { assert PrivName(k)[12] == d[0]; }
  }

  // ---------------------------------------------------------------------
  // The name table

  datatype TableLine = TableOpen | Name(name: string, text: string) | TableClose

  /** The table entries for the registry entries. */
  function EntryNames(data: seq<Entry>): (r: seq<TableLine>)
    ensures |r| == |data|
    ensures forall i :: 0 <= i < |data| ==> r[i] == Name(Rename(data[i].name), data[i].desc)
  {
    seq(|data|, i requires 0 <= i < |data| => Name(Rename(data[i].name), data[i].desc))
  }

  /** The table entries for private use slots 0 to k - 1. */
  function PrivNames(k: nat): (r: seq<TableLine>)
    ensures |r| == k
    ensures forall j :: 0 <= j < k ==> r[j] == Name(PrivName(j), "Reserved for private use #" + Decimal(j))
  {
    seq(k, j requires 0 <= j < k => Name(PrivName(j), "Reserved for private use #" + Decimal(j)))
  }

  /** The whole table `generate_strs` prints. */
  function Table(data: seq<Entry>): (r: seq<TableLine>)
    ensures |r| == |data| + PrivCount + 2
  {
    [TableOpen] + EntryNames(data) + PrivNames(PrivCount) + [TableClose]
  }

  /** `generate_strs(data)`: one entry per registry entry, then one per private use slot. */
  method GenerateStrs(data: seq<Entry>) returns (lines: seq<TableLine>)
    ensures lines == Table(data)
  {
    lines := [TableOpen];
    var i := 0;
    while i < |data|
      invariant i <= |data|
      invariant lines == [TableOpen] + EntryNames(data[..i])
    {
      var e := data[i];
      var name := Rename(e.name);
      lines := lines + [Name(name, e.desc)];
      assert EntryNames(data[..i + 1]) == EntryNames(data[..i]) + [Name(name, e.desc)];
      i := i + 1;
    }
    assert data[..|data|] == data;
    var body := lines;
    var raw := PrivUseBeg;
    while raw <= PrivUseEnd
      invariant PrivUseBeg <= raw <= PrivUseEnd + 1
      invariant lines == body + PrivNames(raw - PrivUseBeg)
    {
      var priv := raw - PrivUseBeg;
      var line := Name(PrivName(priv), "Reserved for private use #" + Decimal(priv));
      lines := lines + [line];
      assert PrivNames(priv + 1) == PrivNames(priv) + [line];
      raw := raw + 1;
    }
    lines := lines + [TableClose];
  }

  /** The names of the member lines. */
  function MemberNames(lines: seq<EnumLine>): (r: seq<string>)
    ensures |r| <= |lines|
  {
    if lines == [] then []
    else if lines[0].Member? then [lines[0].name] + MemberNames(lines[1..])
    else MemberNames(lines[1..])
  }

  /** The names of the table's entries. */
  function TableNames(lines: seq<TableLine>): (r: seq<string>)
    ensures |r| <= |lines|
  {
    if lines == [] then []
    else if lines[0].Name? then [lines[0].name] + TableNames(lines[1..])
    else TableNames(lines[1..])
  }

  lemma {:induction false} MemberNamesConcat(a: seq<EnumLine>, b: seq<EnumLine>)
    ensures MemberNames(a + b) == MemberNames(a) + MemberNames(b)
  {
    if a != [] {
      MemberNamesConcat(a[1..], b);
      assert (a + b)[0] == a[0] && (a + b)[1..] == a[1..] + b;
    } else {
      assert a + b == b;
    }
  }

  lemma {:induction false} TableNamesConcat(a: seq<TableLine>, b: seq<TableLine>)
    ensures TableNames(a + b) == TableNames(a) + TableNames(b)
  {
    if a != [] {
      TableNamesConcat(a[1..], b);
      assert (a + b)[0] == a[0] && (a + b)[1..] == a[1..] + b;
    } else {
      assert a + b == b;
    }
  }

  lemma {:induction false} MemberNamesAll(lines: seq<EnumLine>)
    requires forall i :: 0 <= i < |lines| ==> lines[i].Member?
    ensures MemberNames(lines) == seq(|lines|, i requires 0 <= i < |lines| => lines[i].name)
  {
    if lines != [] {
      MemberNamesAll(lines[1..]);
    }
  }

  lemma {:induction false} TableNamesAll(lines: seq<TableLine>)
    requires forall i :: 0 <= i < |lines| ==> lines[i].Name?
    ensures TableNames(lines) == seq(|lines|, i requires 0 <= i < |lines| => lines[i].name)
  {
    if lines != [] {
      TableNamesAll(lines[1..]);
    }
  }

  /** The member names of the body are the renamed entry names, comments contributing none. */
  lemma {:induction false} BodyMemberNames(data: seq<Entry>, ranges: seq<Range>)
    ensures MemberNames(Body(data, ranges).0) == seq(|data|, i requires 0 <= i < |data| => Rename(data[i].name))
  {
    if data != [] {
      var e := data[0];
      var next := if |ranges| > 0 && e.value > ranges[0].low then ranges[..|ranges| - 1] else ranges;
      BodyMemberNames(data[1..], next);
    }
  }

  /** The private use block names BEG, then every slot in order as the table names it, then END. */
  lemma PrivateBlockNames()
    ensures MemberNames(PrivateBlock()) == ["PRIVATE_USE_BEG"] + TableNames(PrivNames(PrivCount)) + ["PRIVATE_USE_END"]
  {
    var priv := PrivMembers(PrivCount);
    var slots := PrivNames(PrivCount);
    MemberNamesAll(priv);
    TableNamesAll(slots);
    assert MemberNames(priv) == TableNames(slots);
    MemberNamesConcat([BegLine] + priv, [EndLine]);
    MemberNamesConcat([BegLine], priv);
    assert MemberNames([BegLine]) == ["PRIVATE_USE_BEG"] by {
      assert [BegLine][1..] == [];
    }
    assert MemberNames([EndLine]) == ["PRIVATE_USE_END"] by {
      assert [EndLine][1..] == [];
    }
  }

  /** The enumeration's members: the entries as the table names them, then the private use block. */
  lemma EnumNames(data: seq<Entry>, ranges: seq<Range>)
    ensures MemberNames(Enum(data, ranges))
            == TableNames(EntryNames(data)) + ["PRIVATE_USE_BEG"] + TableNames(PrivNames(PrivCount)) + ["PRIVATE_USE_END"]
  {
    var body := Body(data, ranges).0;
    BodyMemberNames(data, ranges);
    TableNamesAll(EntryNames(data));
    assert MemberNames(body) == TableNames(EntryNames(data));
    PrivateBlockNames();
    MemberNamesConcat([EnumOpen] + body + PrivateBlock(), [EnumClose]);
    MemberNamesConcat([EnumOpen] + body, PrivateBlock());
    MemberNamesConcat([EnumOpen], body);
    assert MemberNames([EnumOpen]) == [] by {
      assert [EnumOpen][1..] == [];
    }
    assert MemberNames([EnumClose]) == [] by {
      assert [EnumClose][1..] == [];
    }
    Regroup(TableNames(EntryNames(data)), ["PRIVATE_USE_BEG"], TableNames(PrivNames(PrivCount)), ["PRIVATE_USE_END"]);
  }

  lemma Regroup<T>(a: seq<T>, b: seq<T>, s: seq<T>, c: seq<T>)
    ensures [] + a + (b + s + c) + [] == a + b + s + c
  {
  }

  /** The table's names: the entries', then the slots'. */
  lemma TableNamesSplit(data: seq<Entry>)
    ensures TableNames(Table(data)) == TableNames(EntryNames(data)) + TableNames(PrivNames(PrivCount))
  {
    var entries := EntryNames(data);
    var slots := PrivNames(PrivCount);
    TableNamesConcat([TableOpen] + entries + slots, [TableClose]);
    TableNamesConcat([TableOpen] + entries, slots);
    TableNamesConcat([TableOpen], entries);
    assert TableNames([TableOpen]) == [] by {
      assert [TableOpen][1..] == [];
    }
    assert TableNames([TableClose]) == [] by {
      assert [TableClose][1..] == [];
    }
  }

  /**
   * The table names exactly the members of the enumeration, in the same
   * order, except the BEG and END markers, which no slot entry names.
   */
  lemma TableMatchesEnum(data: seq<Entry>, ranges: seq<Range>)
    ensures var entries := TableNames(EntryNames(data)); var slots := TableNames(PrivNames(PrivCount));
            TableNames(Table(data)) == entries + slots &&
            MemberNames(Enum(data, ranges)) == entries + ["PRIVATE_USE_BEG"] + slots + ["PRIVATE_USE_END"] &&
            "PRIVATE_USE_BEG" !in slots && "PRIVATE_USE_END" !in slots
  {
    EnumNames(data, ranges);
    TableNamesSplit(data);
    var slots := PrivNames(PrivCount);
    TableNamesAll(slots);
    forall k | 0 <= k < PrivCount
      ensures TableNames(slots)[k] != "PRIVATE_USE_BEG" && TableNames(slots)[k] != "PRIVATE_USE_END"
    {
      PrivNamesNotMarkers(k);
    }
  }

  // ---------------------------------------------------------------------
  // Rendering

  /** A line made of a lead, a padded name and a tail holds the lead, then the name. */
  lemma Lead(lead: string, name: string, padded: string, tail: string)
    requires |padded| >= |name| && padded[..|name|] == name
    ensures var r := lead + (padded + tail);
      |r| >= |lead| + |name| && r[..|lead|] == lead && r[|lead|..|lead| + |name|] == name
      && r[|lead|..] == padded + tail
  {
    var r := lead + (padded + tail);
    assert r[|lead|..] == padded + tail;
    assert r[|lead|..|lead| + |name|] == (padded + tail)[..|name|] == padded[..|name|];
  }

  /**
   * The text `generate_enum` prints for a line: members and range comments
   * are indented by a tab, a member's name first and a comment's text
   * alone; the braces are not indented.
   */
  function RenderEnum(line: EnumLine): (r: string)
    ensures (line.Member? || line.RangeComment?) <==> (|r| > 0 && r[0] == '\t')
    ensures line.Member? ==> |r| > |line.name| && r[1..1 + |line.name|] == line.name
    ensures line.RangeComment? ==> r[1..] == line.text
  {
    match line
    case EnumOpen =>
      var s := "enum struct linktype_t : std::uint16_t {";
      assert s[0] == 'e';
      s
    case Member(name, value, doc) =>
      var tail := " = 0x" + Hex4(value) + "U, /*!< " + doc + " */";
      Lead("\t", name, PadRight(name, 26), tail);
      "\t" + (PadRight(name, 26) + tail)
    case RangeComment(_, text) =>
      Lead("\t", [], [], text);
      "\t" + text
    case EnumClose =>
      var s := "};";
      assert s[0] == '}';
      s
  }

  /**
   * The text `generate_strs` prints for a line: a name line is indented by
   * a tab and names its `linktype_t` member; the braces are not indented.
   */
  function RenderTable(line: TableLine): (r: string)
    ensures line.Name? <==> (|r| > 0 && r[0] == '\t')
    ensures line.Name? ==> |r| > 15 + |line.name| && r[..15] == "\t{ linktype_t::" && r[15..15 + |line.name|] == line.name
  {
    match line
    case TableOpen =>
      var s := "const std::unordered_map" + "<linktype_t, std::string_view> linktype_names{";
      assert s[0] == "const std::unordered_map"[0] == 'c';
      s
    case Name(name, text) =>
      var tail := ", \"" + text + "\"sv },";
      Lead("\t{ linktype_t::", name, PadRight(name, 26), tail);
      "\t{ linktype_t::" + (PadRight(name, 26) + tail)
    case TableClose =>
      var s := "};";
      assert s[0] == '}';
      s
  }

  /**
   * A member's value is printed as "0x", four hexadecimal digits and "U"
   * when it fits 16 bits, and the digits read back as the value.
   */
  lemma RenderedValue(name: string, value: nat, doc: string)
    requires value < 0x1_0000
    ensures var s := RenderEnum(Member(name, value, doc));
            var at := 1 + |PadRight(name, 26)| + 5;
            at + 5 <= |s| && s[at - 2..at] == "0x" && s[at..at + 4] == Hex4(value) &&
            HexValue(s[at..at + 4]) == value && s[at + 4] == 'U'
  {
    Hex4Width(value);
    Hex4RoundTrip(value);
    var pad := PadRight(name, 26);
    var s := RenderEnum(Member(name, value, doc));
    var hex, close := Hex4(value), "U, /*!< " + doc + " */";
    var tail := " = 0x" + hex + close;
    assert s == "\t" + (pad + tail);
    var at := 1 + |pad| + 5;
    // From the whole line down to the tail after the padded name.
    Slices("\t", pad + tail, at - 2, at + 5);
    Slices(pad, tail, at - 3, at + 4);
    assert s[at - 2..at + 5] == tail[3..10];
    // Within the tail: " = 0x", the digits, then the closing part.
    Slices(" = 0x" + hex, close, 3, 10);
    assert tail[3..10] == (" = 0x" + hex)[3..9] + close[..1];
    Slices(" = 0x", hex, 3, 5);
    Slices(" = 0x", hex, 5, 9);
    assert s[at - 2..at] == (" = 0x" + hex)[3..5];
    assert s[at..at + 4] == (" = 0x" + hex)[5..9];
    assert s[at + 4] == close[0] == 'U';
  }

  /** A slice of a concatenation that lies in one part is a slice of that part. */
  lemma Slices<T>(x: seq<T>, y: seq<T>, i: nat, j: nat)
    requires i <= j <= |x + y|
    ensures j <= |x| ==> (x + y)[i..j] == x[i..j]
    ensures i >= |x| ==> (x + y)[i..j] == y[i - |x|..j - |x|]
  {
  }

  function RenderAll(lines: seq<EnumLine>): (r: seq<string>)
    ensures |r| == |lines|
    ensures forall i :: 0 <= i < |lines| ==> r[i] == RenderEnum(lines[i])
  {
    seq(|lines|, i requires 0 <= i < |lines| => RenderEnum(lines[i]))
  }

  function RenderAllTable(lines: seq<TableLine>): (r: seq<string>)
    ensures |r| == |lines|
    ensures forall i :: 0 <= i < |lines| ==> r[i] == RenderTable(lines[i])
  {
    seq(|lines|, i requires 0 <= i < |lines| => RenderTable(lines[i]))
  }

  /** Everything `main` prints for the registry's lines, or the exception it raises. */
  function Output(document: seq<string>): (r: Result<seq<string>, Error>)
    ensures r.Failure? <==> Parse(document).Failure?
    ensures r.Success? ==>
      var (data, ranges) := Parse(document).value;
      |r.value| == |Enum(data, ranges)| + 1 + |Table(data)| && r.value[|Enum(data, ranges)|] == ""
  {
    match Parse(document)
    case Failure(e) => Failure(e)
    case Success((data, ranges)) =>
      Success(RenderAll(Enum(data, ranges)) + [""] + RenderAllTable(Table(data)))
  }

  /** `main` after the download: parse, print the enumeration, a blank line and the table. */
  method Run(document: seq<string>) returns (r: Result<seq<string>, Error>)
    ensures r == Output(document)
  {
    var parsed := Parse(document);
    if parsed.Failure? {
      return Failure(parsed.error);
    }
    var (data, ranges) := parsed.value;
    var enumLines, _ := GenerateEnum(data, ranges);
    var tableLines := GenerateStrs(data);
    return Success(RenderAll(enumLines) + [""] + RenderAllTable(tableLines));
  }

  // ---------------------------------------------------------------------
  // The range comment placement

  /**
   * As written, the comment printed after a member can be that of a range
   * whose lower bound is above the member's value: the test looks at the
   * first range but the last one is popped.
   */
  lemma RangeCommentFinding()
    ensures var data := [Entry("A", 20, "a")];
            var ranges := [Range(10, "x"), Range(200, "y")];
            Body(data, ranges).0 == [Member("A", 20, "a"), RangeComment(200, "y")] &&
            Body(data, ranges).0[1].low > Body(data, ranges).0[0].value
  {
    var data := [Entry("A", 20, "a")];
    var ranges := [Range(10, "x"), Range(200, "y")];
    assert data[1..] == [];
    assert ranges[..1] == [Range(10, "x")];
  }

  /** The entries part of `generate_enum` popping the range it compared, the first. */
  function BodyFixed(data: seq<Entry>, ranges: seq<Range>): (r: (seq<EnumLine>, seq<Range>))
    ensures |r.1| <= |ranges|
  {
    if data == [] then ([], ranges)
    else
      var e := data[0];
      if |ranges| > 0 && e.value > ranges[0].low then
        var (rest, left) := BodyFixed(data[1..], ranges[1..]);
        ([MemberOf(e), RangeComment(ranges[0].low, ranges[0].text)] + rest, left)
      else
        var (rest, left) := BodyFixed(data[1..], ranges);
        ([MemberOf(e)] + rest, left)
  }

  /** The lines the fixed generator prints for the entries. */
  function FixedLines(data: seq<Entry>, ranges: seq<Range>): seq<EnumLine>
  {
    BodyFixed(data, ranges).0
  }

  /** What the fixed generator leaves of the ranges. */
  function FixedLeft(data: seq<Entry>, ranges: seq<Range>): seq<Range>
  {
    BodyFixed(data, ranges).1
  }

  /**
   * With the first range popped, the comments are those of the first ranges
   * in their own order, and what is left is the ranges not yet printed.
   */
  lemma {:induction false} BodyFixedComments(data: seq<Entry>, ranges: seq<Range>)
    ensures FixedLeft(data, ranges) == ranges[|ranges| - |FixedLeft(data, ranges)|..]
    ensures Comments(FixedLines(data, ranges)) == CommentsOf(ranges[..|ranges| - |FixedLeft(data, ranges)|])
  {
    if data != [] {
      var e := data[0];
      var popped := |ranges| > 0 && e.value > ranges[0].low;
      var next := if popped then ranges[1..] else ranges;
      var step := if popped then [MemberOf(e), RangeComment(ranges[0].low, ranges[0].text)] else [MemberOf(e)];
      BodyFixedComments(data[1..], next);
      var rest := FixedLines(data[1..], next);
      var left := FixedLeft(data[1..], next);
      assert FixedLines(data, ranges) == step + rest;
      assert FixedLeft(data, ranges) == left;
      var used := |next| - |left|;
      assert Comments(step + rest) == Comments(step) + Comments(rest) by {
        CommentsConcat(step, rest);
      }
      if popped {
        DropFirst(ranges, used);
        assert CommentsOf(ranges[..used + 1]) == [RangeComment(ranges[0].low, ranges[0].text)] + CommentsOf(ranges[1..][..used]) by {
          CommentsOfCons(ranges[0], ranges[1..][..used]);
        }
      }
    }
  }

  /**
   * With the first range popped, every comment directly follows a member
   * whose value exceeds the range's lower bound.
   */
  lemma {:induction false} BodyFixedPlacement(data: seq<Entry>, ranges: seq<Range>)
    ensures forall i :: 0 <= i < |FixedLines(data, ranges)| ==>
              FixedLines(data, ranges)[i].Member? || FixedLines(data, ranges)[i].RangeComment?
    ensures forall i :: 0 <= i < |FixedLines(data, ranges)| && FixedLines(data, ranges)[i].RangeComment? ==>
              i > 0 && FixedLines(data, ranges)[i - 1].Member? && FixedLines(data, ranges)[i].low < FixedLines(data, ranges)[i - 1].value
  {
    if data != [] {
      var e := data[0];
      var popped := |ranges| > 0 && e.value > ranges[0].low;
      var next := if popped then ranges[1..] else ranges;
      var step := if popped then [MemberOf(e), RangeComment(ranges[0].low, ranges[0].text)] else [MemberOf(e)];
      BodyFixedPlacement(data[1..], next);
      var rest := FixedLines(data[1..], next);
      var lines := FixedLines(data, ranges);
      assert lines == step + rest;
      forall i | 0 <= i < |lines|
        ensures lines[i].Member? || lines[i].RangeComment?
        ensures lines[i].RangeComment? ==> i > 0 && lines[i - 1].Member? && lines[i].low < lines[i - 1].value
      {
        if i >= |step| {
          assert lines[i] == rest[i - |step|];
          if i > |step| {
            assert lines[i - 1] == rest[i - 1 - |step|];
          } else {
            assert lines[i - 1] == step[|step| - 1];
          }
        } else {
          assert lines[i] == step[i];
          if i > 0 {
            assert lines[i - 1] == step[i - 1];
          }
        }
      }
    }
  }

  lemma {:induction false} CommentsConcat(a: seq<EnumLine>, b: seq<EnumLine>)
    ensures Comments(a + b) == Comments(a) + Comments(b)
  {
    if a != [] {
      CommentsConcat(a[1..], b);
      assert (a + b)[0] == a[0] && (a + b)[1..] == a[1..] + b;
    } else {
      assert a + b == b;
    }
  }

  /** On sorted ranges the fixed generator prints the comments in ascending order of lower bound. */
  lemma FixedCommentsAscending(data: seq<Entry>, ranges: seq<Range>, i: nat, j: nat)
    requires Sorted(ranges)
    requires i <= j < |Comments(FixedLines(data, ranges))|
    ensures Comments(FixedLines(data, ranges))[i].low <= Comments(FixedLines(data, ranges))[j].low
  {
    BodyFixedComments(data, ranges);
    SortedLows(ranges, i, j);
  }
}
