/** The center files: `get_centers` reads one, `set_centers` overwrites one
    and `add_center` appends one line to one. A file is its text, or None
    when it does not exist. A line is written as "id x y\n". */
module CenterStore {
  import opened Wrappers
  import opened Types
  import opened Text
  import opened Sorting

  // ---------------------------------------------------------------------------
  // Reading

  /** `list(map(int, fields))`: every field converted to an integer, or the
      ValueError of the first field that is not one. */
  function ParseFields(fields: seq<string>): (r: Result<seq<int>, Error>)
    ensures r.Success? <==> forall i :: 0 <= i < |fields| ==> ParseInt(fields[i]).Some?
    ensures r.Success? ==> |r.value| == |fields|
    ensures r.Success? ==> forall i :: 0 <= i < |fields| ==> ParseInt(fields[i]) == Some(r.value[i])
    ensures r.Failure? ==> r.error == BadInt
    decreases |fields|
  {
    if |fields| == 0 then Success([])
    else
      match ParseInt(fields[0])
      case None => Failure(BadInt)
      case Some(v) =>
        var rest :- ParseFields(fields[1..]);
        Success([v] + rest)
  }

  /** One non-empty line: its space-separated fields as integers. */
  function ParseLine(line: string): Result<Record, Error> {
    var ints :- ParseFields(Split(line, ' '));
    Success(Record(ints[0], ints[1..]))
  }

  /** The records of a file's lines in file order; empty lines are skipped. */
  function ParseLines(lines: seq<string>): Result<seq<Record>, Error>
    decreases |lines|
  {
    if |lines| == 0 then Success([])
    else if |lines[0]| == 0 then ParseLines(lines[1..])
    else
      var r :- ParseLine(lines[0]);
      var rest :- ParseLines(lines[1..]);
      Success([r] + rest)
  }

  /** The records of a center file in file order; an absent file has none. */
  function ReadRecords(file: Option<string>): Result<seq<Record>, Error> {
    match file
    case None => Success([])
    case Some(text) => ParseLines(Split(text, '\n'))
  }

  lemma SortIsStableAll(rs: seq<Record>)
    ensures forall k :: WithId(SortById(rs), k) == WithId(rs, k)
  {
    forall k
      ensures WithId(SortById(rs), k) == WithId(rs, k)
    {
      SortIsStable(rs, k);
    }
  }

  /** `get_centers(filename)`: the file's records stably sorted by id. An
      absent file yields no centers. */
  function GetCenters(file: Option<string>): (r: Result<seq<Record>, Error>)
    ensures file.None? ==> r == Success([])
    ensures r.Success? <==> ReadRecords(file).Success?
    ensures r.Success? ==> SortedById(r.value)
    ensures r.Success? ==> multiset(r.value) == multiset(ReadRecords(file).value)
    ensures r.Success? ==> forall k :: WithId(r.value, k) == WithId(ReadRecords(file).value, k)
  {
    var rs :- ReadRecords(file);
    SortIsStableAll(rs);
    Success(SortById(rs))
  }

  // ---------------------------------------------------------------------------
  // Writing

  /** The fields of a center separated by single spaces. */
  function CenterLine(c: Center): string {
    IntToString(c.id) + " " + IntToString(c.x) + " " + IntToString(c.y)
  }

  function FormatCenter(c: Center): string {
    CenterLine(c) + "\n"
  }

  /** The text of a file holding these centers, one line each, in order. */
  function Serialise(cs: seq<Center>): string
    decreases |cs|
  {
    if |cs| == 0 then "" else FormatCenter(cs[0]) + Serialise(cs[1..])
  }

  /** A record cut to its id and first two coordinates, which is all of it
      that `set_centers` writes back. */
  function Truncate(r: Record): Record {
    if |r.coords| <= 2 then r else Record(r.id, r.coords[..2])
  }

  function Truncated(rs: seq<Record>): (out: seq<Record>)
    ensures |out| == |rs|
    ensures forall i :: 0 <= i < |rs| ==> out[i] == Truncate(rs[i])
  {
    seq(|rs|, i requires 0 <= i < |rs| => Truncate(rs[i]))
  }

  /** `point[0]`, `point[1]`, `point[2]` of every record: an IndexError
      for any record with fewer than two coordinates. */
  function ToCenters(rs: seq<Record>): (r: Result<seq<Center>, Error>)
    ensures r.Success? <==> forall i :: 0 <= i < |rs| ==> |rs[i].coords| >= 2
    ensures r.Success? ==> Records(r.value) == Truncated(rs)
    ensures r.Failure? ==> r.error == ShortRecord
    decreases |rs|
  {
    if |rs| == 0 then Success([])
    else if |rs[0].coords| < 2 then Failure(ShortRecord)
    else
      var rest :- ToCenters(rs[1..]);
      var c := Center(rs[0].id, rs[0].coords[0], rs[0].coords[1]);
      ToCentersStep(rs, c, rest);
      Success([c] + rest)
  }

  lemma ToCentersStep(rs: seq<Record>, c: Center, rest: seq<Center>)
    requires |rs| > 0 && |rs[0].coords| >= 2
    requires c == Center(rs[0].id, rs[0].coords[0], rs[0].coords[1])
    requires Records(rest) == Truncated(rs[1..])
    ensures Records([c] + rest) == Truncated(rs)
  {
    assert rs[0].coords[..2] == [rs[0].coords[0], rs[0].coords[1]];
    assert Truncate(rs[0]) == AsRecord(c);
    assert Records([c] + rest) == [AsRecord(c)] + Records(rest);
    assert Truncated(rs) == [Truncate(rs[0])] + Truncated(rs[1..]);
  }

  /** `set_centers(centers)`: the new text of the overwritten file. */
  function SetCenters(rs: seq<Record>): Result<string, Error> {
    var cs :- ToCenters(rs);
    Success(Serialise(cs))
  }

  /** `add_center(class_id, center)`: the file, created when absent, with
      one line for the center added at its end; what it held is kept. */
  function AddCenter(file: Option<string>, classId: int, center: Point): (f: Option<string>)
    ensures f.Some? && file.GetOr("") <= f.value
  {
    Some(file.GetOr("") + FormatCenter(Center(classId, center.x, center.y)))
  }

  // ---------------------------------------------------------------------------
  // Reading back what was written

  lemma ParseCenterLine(c: Center)
    ensures |CenterLine(c)| > 0 && '\n' !in CenterLine(c)
    ensures ParseLine(CenterLine(c)) == Success(AsRecord(c))
  {
    var a, b, d := IntToString(c.id), IntToString(c.x), IntToString(c.y);
    assert [a, b, d][1..] == [b, d] && [b, d][1..] == [d];
    assert Join([b, d], ' ') == b + [' '] + d;
    assert Join([a, b, d], ' ') == a + [' '] + (b + [' '] + d);
    assert CenterLine(c) == Join([a, b, d], ' ');
    SplitJoin([a, b, d], ' ');
    ParseIntToString(c.id);
    ParseIntToString(c.x);
    ParseIntToString(c.y);
    var ints := ParseFields([a, b, d]).value;
    assert ints == [c.id, c.x, c.y];
  }

  /** The lines of the written centers, without their newlines. */
  function Lines(cs: seq<Center>): seq<string>
    decreases |cs|
  {
    if |cs| == 0 then [] else [CenterLine(cs[0])] + Lines(cs[1..])
  }

  lemma SplitAfterLine(l: string, rest: string, ls: seq<string>)
    requires '\n' !in l
    requires Split(rest, '\n') == ls + [""]
    ensures Split(l + ['\n'] + rest, '\n') == [l] + ls + [""]
  {
    SplitConcat(l, rest, '\n');
    SplitNoSep(l, '\n');
  }

  lemma {:induction false} SplitSerialise(cs: seq<Center>)
    ensures Split(Serialise(cs), '\n') == Lines(cs) + [""]
    decreases |cs|
  {
    if |cs| > 0 {
      var l, rest := CenterLine(cs[0]), Serialise(cs[1..]);
      assert '\n' !in l by {
        ParseCenterLine(cs[0]);
      }
      assert Serialise(cs) == l + ['\n'] + rest;
      SplitSerialise(cs[1..]);
      SplitAfterLine(l, rest, Lines(cs[1..]));
    }
  }

  lemma ParseLinesCons(l: string, ls: seq<string>, r: Record, rs: seq<Record>)
    requires |l| > 0
    requires ParseLine(l) == Success(r)
    requires ParseLines(ls + [""]) == Success(rs)
    ensures ParseLines(([l] + ls) + [""]) == Success([r] + rs)
  {
    Assoc([l], ls, [""]);
    assert ([l] + (ls + [""]))[1..] == ls + [""];
  }

  lemma RecordsCons(cs: seq<Center>)
    requires |cs| > 0
    ensures Records(cs) == [AsRecord(cs[0])] + Records(cs[1..])
  {
  }

  lemma ParseLinesOfCentersStep(cs: seq<Center>, rs: seq<Record>)
    requires |cs| > 0
    requires ParseLines(Lines(cs[1..]) + [""]) == Success(rs)
    ensures ParseLines(Lines(cs) + [""]) == Success([AsRecord(cs[0])] + rs)
  {
    ParseCenterLine(cs[0]);
    ParseLinesCons(CenterLine(cs[0]), Lines(cs[1..]), AsRecord(cs[0]), rs);
  }

  lemma {:induction false} ParseLinesOfCenters(cs: seq<Center>)
    ensures ParseLines(Lines(cs) + [""]) == Success(Records(cs))
    decreases |cs|
  {
    if |cs| == 0 {
      assert Lines(cs) + [""] == [""];
    } else {
      ParseLinesOfCenters(cs[1..]);
      ParseLinesOfCentersStep(cs, Records(cs[1..]));
      RecordsCons(cs);
    }
  }

  /** Reading a written file yields exactly the written centers, in order. */
  lemma ReadSerialised(cs: seq<Center>)
    ensures ReadRecords(Some(Serialise(cs))) == Success(Records(cs))
  {
    SplitSerialise(cs);
    ParseLinesOfCenters(cs);
  }

  /** What `set_centers` writes, `get_centers` reads back as the input list
      stably sorted by id, each record cut to its first two coordinates. */
  lemma SetThenGet(rs: seq<Record>)
    requires SetCenters(rs).Success?
    ensures GetCenters(Some(SetCenters(rs).value)) == Success(SortById(Truncated(rs)))
  {
    ReadSerialised(ToCenters(rs).value);
  }

  /** A read, write and second read gives back the first read's result once
      every record is cut to two coordinates; for centers that the job
      wrote, which have exactly two, it is the first result itself. */
  lemma GetSetGet(file: Option<string>)
    requires GetCenters(file).Success?
    requires SetCenters(GetCenters(file).value).Success?
    ensures GetCenters(Some(SetCenters(GetCenters(file).value).value)) == Success(Truncated(GetCenters(file).value))
    ensures (forall i :: 0 <= i < |GetCenters(file).value| ==> |GetCenters(file).value[i].coords| == 2) ==>
              GetCenters(Some(SetCenters(GetCenters(file).value).value)) == GetCenters(file)
  {
    var rs := GetCenters(file).value;
    SetThenGet(rs);
    TruncatedSorted(rs);
    if forall i :: 0 <= i < |rs| ==> |rs[i].coords| == 2 {
      TruncatedTwo(rs);
    }
  }

  lemma TruncatedSorted(rs: seq<Record>)
    requires SortedById(rs)
    ensures SortById(Truncated(rs)) == Truncated(rs)
  {
    assert SortedById(Truncated(rs));
    SortOfSorted(Truncated(rs));
  }

  lemma TruncatedTwo(rs: seq<Record>)
    requires forall i :: 0 <= i < |rs| ==> |rs[i].coords| == 2
    ensures Truncated(rs) == rs
  {
  }

  // ---------------------------------------------------------------------------
  // Blank lines and appends

  lemma {:induction false} ParseLinesBlank(a: seq<string>, b: seq<string>)
    ensures ParseLines(a + [""] + b) == ParseLines(a + b)
    decreases |a|
  {
    var x, y := a + [""] + b, a + b;
    if |a| == 0 {
      assert x == [""] + b && y == b;
      assert x[1..] == b;
    } else {
      ParseLinesBlank(a[1..], b);
      assert x[0] == y[0] == a[0];
      assert x[1..] == a[1..] + [""] + b;
      assert y[1..] == a[1..] + b;
    }
  }

  lemma SplitLeadingSep(b: string, sep: char)
    ensures Split([sep] + b, sep) == [""] + Split(b, sep)
  {
    assert [sep] + b == "" + [sep] + b;
    SplitConcat("", b, sep);
  }

  /** An extra empty line after any line of a center file (a doubled
      newline) changes nothing that is read. */
  lemma BlankLineIgnored(a: string, b: string)
    ensures ReadRecords(Some(a + "\n\n" + b)) == ReadRecords(Some(a + "\n" + b))
    ensures GetCenters(Some(a + "\n\n" + b)) == GetCenters(Some(a + "\n" + b))
  {
    var sa, sb := Split(a, '\n'), Split(b, '\n');
    assert a + "\n\n" + b == a + ['\n'] + (['\n'] + b);
    assert a + "\n" + b == a + ['\n'] + b;
    SplitConcat(a, ['\n'] + b, '\n');
    SplitLeadingSep(b, '\n');
    SplitConcat(a, b, '\n');
    Assoc(sa, [""], sb);
    ParseLinesBlank(sa, sb);
  }

  /** An empty line at the very start of a center file changes nothing
      that is read. */
  lemma LeadingBlankLineIgnored(t: string)
    ensures ReadRecords(Some("\n" + t)) == ReadRecords(Some(t))
    ensures GetCenters(Some("\n" + t)) == GetCenters(Some(t))
  {
    SplitLeadingSep(t, '\n');
    ParseLinesBlank([], Split(t, '\n'));
    assert [] + [""] + Split(t, '\n') == [""] + Split(t, '\n');
    assert [] + Split(t, '\n') == Split(t, '\n');
  }

  /** A newline added at the end of a center file changes nothing that is read. */
  lemma TrailingNewlineIgnored(t: string)
    ensures ReadRecords(Some(t + "\n")) == ReadRecords(Some(t))
    ensures GetCenters(Some(t + "\n")) == GetCenters(Some(t))
  {
    assert t + "\n" == t + ['\n'] + "";
    SplitConcat(t, "", '\n');
    assert Split("", '\n') == [""];
    ParseLinesBlank(Split(t, '\n'), []);
    assert Split(t, '\n') + [""] + [] == Split(t, '\n') + [""];
    assert Split(t, '\n') + [] == Split(t, '\n');
  }

  /** A file is absent, empty, or ends with a newline: every line in it is complete. */
  predicate CompleteLines(file: Option<string>) {
    file.None? || |file.value| == 0 || file.value[|file.value| - 1] == '\n'
  }

  /** The records read so far, after one more line is read. */
  function ReadOneMore(prev: seq<Record>, line: string): Result<seq<Record>, Error> {
    if |line| == 0 then Success(prev)
    else
      var r :- ParseLine(line);
      Success(prev + [r])
  }

  lemma {:induction false} ParseLinesAppend(a: seq<string>, line: string)
    requires ParseLines(a).Success?
    ensures ParseLines(a + [line]) == ReadOneMore(ParseLines(a).value, line)
    decreases |a|
  {
    var x := a + [line];
    if |a| == 0 {
      assert x == [line] && x[1..] == [];
      assert ParseLines(a).value == [];
      if |line| > 0 && ParseLine(line).Success? {
        var r := ParseLine(line).value;
        assert [r] + [] == [] + [r];
      }
    } else {
      assert x[0] == a[0] && x[1..] == a[1..] + [line];
      ParseLinesAppend(a[1..], line);
      if |a[0]| > 0 {
        var r0 := ParseLine(a[0]).value;
        var rest := ParseLines(a[1..]).value;
        assert ParseLines(a).value == [r0] + rest;
        if |line| > 0 && ParseLine(line).Success? {
          Assoc([r0], rest, [ParseLine(line).value]);
        }
      }
    }
  }

  lemma SplitAfterComplete(u: string, line: string)
    requires '\n' !in line
    ensures Split(u + "\n", '\n') == Split(u, '\n') + [""]
    ensures Split(u + "\n" + (line + "\n"), '\n') == Split(u, '\n') + [line] + [""]
  {
    assert u + "\n" == u + ['\n'] + "";
    SplitConcat(u, "", '\n');
    assert Split("", '\n') == [""];
    assert line + "\n" == line + ['\n'] + "";
    SplitConcat(line, "", '\n');
    SplitNoSep(line, '\n');
    assert u + "\n" + (line + "\n") == u + ['\n'] + (line + "\n");
    SplitConcat(u, line + "\n", '\n');
    Assoc(Split(u, '\n'), [line], [""]);
  }

  lemma DropTrailingBlank(lines: seq<string>)
    ensures ParseLines(lines + [""]) == ParseLines(lines)
  {
    ParseLinesBlank(lines, []);
    assert lines + [""] + [] == lines + [""];
    assert lines + [] == lines;
  }

  lemma ReadAppended(su: seq<string>, line: string, r: Record)
    requires |line| > 0 && ParseLine(line) == Success(r)
    ensures ParseLines(su).Success? ==> ParseLines(su + [line] + [""]) == Success(ParseLines(su).value + [r])
    ensures ParseLines(su).Failure? ==> ParseLines(su + [line] + [""]).Failure?
  {
    DropTrailingBlank(su + [line]);
    if ParseLines(su).Success? {
      ParseLinesAppend(su, line);
    } else {
      ParseLinesFailPrefix(su, [line]);
    }
  }

  /** The lines of a text of complete lines with one more line added: the
      lines it had, the new one, and the empty piece after the last newline. */
  lemma CompleteSplit(t: string, line: string) returns (su: seq<string>)
    requires '\n' !in line
    requires |t| == 0 || t[|t| - 1] == '\n'
    ensures Split(t + (line + "\n"), '\n') == su + [line] + [""]
    ensures ParseLines(Split(t, '\n')) == ParseLines(su)
    ensures |t| == 0 ==> su == []
  {
    if |t| == 0 {
      su := [];
      assert t + (line + "\n") == line + ['\n'] + "";
      SplitConcat(line, "", '\n');
      SplitNoSep(line, '\n');
      assert Split("", '\n') == [""];
      DropTrailingBlank(su);
    } else {
      var u := t[..|t| - 1];
      assert t == u + "\n";
      SplitAfterComplete(u, line);
      su := Split(u, '\n');
      DropTrailingBlank(su);
    }
  }

  /** `add_center` on a file of complete lines adds one record, the given
      center, after the records already there, and the file it leaves has
      complete lines again; a file that could not be read still cannot. */
  lemma AddCenterAppendsRecord(file: Option<string>, classId: int, center: Point)
    requires CompleteLines(file)
    ensures CompleteLines(AddCenter(file, classId, center))
    ensures ReadRecords(file).Success? ==>
      ReadRecords(AddCenter(file, classId, center)) ==
        Success(ReadRecords(file).value + [Record(classId, [center.x, center.y])])
    ensures ReadRecords(file).Failure? ==> ReadRecords(AddCenter(file, classId, center)).Failure?
  {
    var c := Center(classId, center.x, center.y);
    var t := file.GetOr("");
    var line := CenterLine(c);
    assert |line| > 0 && '\n' !in line && ParseLine(line) == Success(AsRecord(c)) by {
      ParseCenterLine(c);
    }
    var added := t + (line + "\n");
    assert AddCenter(file, classId, center) == Some(added);
    assert added[|added| - 1] == '\n';
    var su := CompleteSplit(t, line);
    assert ReadRecords(file) == ParseLines(su);
    assert ReadRecords(Some(added)) == ParseLines(su + [line] + [""]);
    ReadAppended(su, line, AsRecord(c));
  }

  lemma {:induction false} ParseLinesFailPrefix(a: seq<string>, b: seq<string>)
    requires ParseLines(a).Failure?
    ensures ParseLines(a + b).Failure?
    decreases |a|
  {
    assert |a| > 0;
    assert (a + b)[1..] == a[1..] + b;
    if |a[0]| == 0 || ParseLine(a[0]).Success? {
      ParseLinesFailPrefix(a[1..], b);
    }
  }

  /** The file the reducers leave behind when they append these centers, in
      this order, to the given file. */
  function AppendAll(file: Option<string>, cs: seq<Center>): Option<string>
    decreases |cs|
  {
    if |cs| == 0 then file
    else AppendAll(AddCenter(file, cs[0].id, Point(cs[0].x, cs[0].y)), cs[1..])
  }

  lemma {:induction false} SerialiseSnoc(cs: seq<Center>, c: Center)
    ensures Serialise(cs + [c]) == Serialise(cs) + FormatCenter(c)
    decreases |cs|
  {
    if |cs| == 0 {
      assert [c][1..] == [];
    } else {
      assert (cs + [c])[1..] == cs[1..] + [c];
      SerialiseSnoc(cs[1..], c);
    }
  }

  lemma AppendAllCons(file: Option<string>, cs: seq<Center>)
    requires |cs| > 0
    ensures AppendAll(file, cs) == AppendAll(AddCenter(file, cs[0].id, Point(cs[0].x, cs[0].y)), cs[1..])
  {
  }

  lemma AddCenterSerialised(done: seq<Center>, c: Center)
    ensures AddCenter(Some(Serialise(done)), c.id, Point(c.x, c.y)) == Some(Serialise(done + [c]))
  {
    SerialiseSnoc(done, c);
  }

  lemma {:induction false} AppendAllOnto(done: seq<Center>, cs: seq<Center>)
    ensures AppendAll(Some(Serialise(done)), cs) == Some(Serialise(done + cs))
    decreases |cs|
  {
    if |cs| == 0 {
      assert done + cs == done;
    } else {
      AppendAllCons(Some(Serialise(done)), cs);
      AddCenterSerialised(done, cs[0]);
      AppendAllOnto(done + [cs[0]], cs[1..]);
      Assoc(done, [cs[0]], cs[1..]);
      assert [cs[0]] + cs[1..] == cs;
    }
  }

  /** Appending to an absent file: the file exists exactly when at least one
      center was appended, and then holds one line per center in order. */
  lemma AppendAllToAbsent(cs: seq<Center>)
    ensures AppendAll(None, cs) == if |cs| == 0 then None else Some(Serialise(cs))
  {
    if |cs| > 0 {
      AppendAllCons(None, cs);
      assert Serialise([]) == "";
      AddCenterSerialised([], cs[0]);
      AppendAllOnto([cs[0]], cs[1..]);
      assert [cs[0]] + cs[1..] == cs;
    }
  }

  /** Reducers may append their centers in any order: when the class ids are
      distinct, the centers read back from the file are the same. */
  lemma AppendOrderIrrelevant(cs: seq<Center>, ds: seq<Center>)
    requires DistinctIds(Records(cs))
    requires multiset(Records(cs)) == multiset(Records(ds))
    ensures GetCenters(AppendAll(None, cs)) == GetCenters(AppendAll(None, ds))
  {
    AppendAllToAbsent(cs);
    AppendAllToAbsent(ds);
    assert |Records(cs)| == |multiset(Records(cs))| == |multiset(Records(ds))| == |Records(ds)|;
    if |cs| > 0 {
      ReadSerialised(cs);
      ReadSerialised(ds);
      SortIgnoresOrder(Records(cs), Records(ds));
    }
  }
}
