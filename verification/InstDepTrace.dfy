/** The ASCII form of instruction dependency traces: the printer of the decoding script and the
    parser of the encoding script. */
module InstDepTrace {
  import opened Options
  import opened Text

  datatype RecordType = INVALID | LOAD | STORE | COMP

  datatype Record = Record(
    seqNum: nat, typ: RecordType, pc: Option<nat>, weight: Option<nat>,
    pAddr: Option<nat>, size: Option<nat>, flags: Option<nat>,
    compDelay: nat, robDep: seq<nat>, regDep: seq<nat>)

  datatype Failure = WrongParts | MissingField | BadNumber | UnsupportedType | InvalidType

  datatype Result = Ok(record: Record) | Err(failure: Failure)

  function TypeName(t: RecordType): string {
    match t
    case INVALID => "INVALID"
    case LOAD => "LOAD"
    case STORE => "STORE"
    case COMP => "COMP"
  }

  function TypeNamed(name: string): Option<RecordType> {
    if name == "INVALID" then Some(INVALID)
    else if name == "LOAD" then Some(LOAD)
    else if name == "STORE" then Some(STORE)
    else if name == "COMP" then Some(COMP)
    else None
  }

  predicate IsAccess(t: RecordType) {
    t == LOAD || t == STORE
  }

  // ---- Printing ----

  function OrElse(x: Option<nat>, default: nat): nat {
    if x.Some? then x.value else default
  }

  function OptionalField(x: Option<nat>): seq<string> {
    if x.Some? then [Decimal(x.value)] else []
  }

  /** The comma-separated fields before the first colon. */
  function Fields(r: Record): seq<string> {
    [Decimal(r.seqNum), Decimal(OrElse(r.pc, 0)), Decimal(OrElse(r.weight, 1)), TypeName(r.typ)]
      + OptionalField(r.pAddr) + OptionalField(r.size) + OptionalField(r.flags) + [Decimal(r.compDelay)]
  }

  function Numerals(deps: seq<nat>): seq<string> {
    if deps == [] then [] else Numerals(deps[..|deps| - 1]) + [Decimal(deps[|deps| - 1])]
  }

  /** A dependency list as printed: every element behind a comma. */
  function DepText(deps: seq<nat>): string {
    Join([""] + Numerals(deps), ',')
  }

  function Line(r: Record): string {
    Join([Join(Fields(r), ','), DepText(r.robDep), DepText(r.regDep)], ':') + "\n"
  }

  lemma {:induction false} JoinAppend(parts: seq<string>, x: string, c: char)
    requires parts != []
    ensures Join(parts + [x], c) == Join(parts, c) + [c] + x
  {
    if |parts| == 1 {
      assert (parts + [x])[1..] == [x];
    } else {
      assert (parts + [x])[1..] == parts[1..] + [x];
      JoinAppend(parts[1..], x, c);
    }
  }

  /** Writes the loop over one repeated field. */
  method PrintDeps(out0: string, deps: seq<nat>) returns (out: string)
    ensures out == out0 + DepText(deps)
  {
    out := out0;
    assert deps[..0] == [];
    for k := 0 to |deps|
      invariant out == out0 + DepText(deps[..k])
    {
      assert deps[..k + 1][..k] == deps[..k];
      JoinAppend([""] + Numerals(deps[..k]), Decimal(deps[k]), ',');
      assert ([""] + Numerals(deps[..k])) + [Decimal(deps[k])] == [""] + Numerals(deps[..k + 1]);
      out := out + "," + Decimal(deps[k]);
    }
    assert deps[..|deps|] == deps;
  }

  /** Writes one more field behind a comma; `done` are the fields written so far. */
  method PrintField(out0: string, field: string, ghost done: seq<string>) returns (out: string)
    requires done != [] && out0 == Join(done, ',')
    ensures out == Join(done + [field], ',')
  {
    JoinAppend(done, field, ',');
    out := out0 + "," + field;
  }

  method PrintOptional(out0: string, x: Option<nat>, ghost done: seq<string>) returns (out: string)
    requires done != [] && out0 == Join(done, ',')
    ensures out == Join(done + OptionalField(x), ',')
  {
    out := out0;
    if x.Some? {
      out := PrintField(out, Decimal(x.value), done);
    } else {
      assert done + OptionalField(x) == done;
    }
  }

  /** The fields every record starts with. */
  method PrintHead(r: Record) returns (out: string)
    ensures out == Join(Fields(r)[..4], ',')
  {
    out := Decimal(r.seqNum);
    ghost var f := Fields(r);
    assert f[..1] == [Decimal(r.seqNum)];
    assert f[..2] == f[..1] + [f[1]] && f[..3] == f[..2] + [f[2]] && f[..4] == f[..3] + [f[3]];
    if r.pc.Some? {
      out := PrintField(out, Decimal(r.pc.value), f[..1]);
    } else {
      out := PrintField(out, "0", f[..1]);
    }
    if r.weight.Some? {
      out := PrintField(out, Decimal(r.weight.value), f[..2]);
    } else {
      out := PrintField(out, "1", f[..2]);
    }
    out := PrintField(out, TypeName(r.typ), f[..3]);
  }

  method PrintInfo(r: Record) returns (out: string)
    ensures out == Join(Fields(r), ',')
  {
    out := PrintHead(r);
    ghost var done := Fields(r)[..4];
    out := PrintOptional(out, r.pAddr, done);
    done := done + OptionalField(r.pAddr);
    out := PrintOptional(out, r.size, done);
    done := done + OptionalField(r.size);
    out := PrintOptional(out, r.flags, done);
    done := done + OptionalField(r.flags);
    out := PrintField(out, Decimal(r.compDelay), done);
    assert done + [Decimal(r.compDelay)] == Fields(r);
  }

  /** One pass of the decoder's printing loop. */
  method PrintRecord(r: Record) returns (out: string)
    ensures out == Line(r)
  {
    out := PrintInfo(r);
    ghost var info := out;
    out := PrintDeps(out + ":", r.robDep);
    out := PrintDeps(out + ":", r.regDep);
    LineParts(info, DepText(r.robDep), DepText(r.regDep));
    out := out + "\n";
  }

  lemma LineParts(a: string, b: string, c: string)
    ensures Join([a, b, c], ':') == a + ":" + b + ":" + c
  {
    assert [a, b, c][1..] == [b, c] && [b, c][1..] == [c];
    assert Join([b, c], ':') == b + [':'] + c;
  }

  // ---- Parsing ----

  /** The non-empty items of a dependency list; None if one of them is not a number. */
  function ParseDeps(items: seq<string>): Option<seq<nat>> {
    if items == [] then Some([]) else
    var before, last := ParseDeps(items[..|items| - 1]), items[|items| - 1];
    if before.None? then None
    else if last == "" then before
    else if ParseNat(last).None? then None
    else Some(before.value + [ParseNat(last).value])
  }

  function ParseInfo(info: seq<string>): Result {
    if |info| < 4 then Err(MissingField)
    else if ParseNat(info[0]).None? || ParseNat(info[1]).None? || ParseNat(info[2]).None? then Err(BadNumber)
    else if TypeNamed(info[3]).None? then Err(UnsupportedType)
    else
      var typ := TypeNamed(info[3]).value;
      var r := Record(ParseNat(info[0]).value, typ, ParseNat(info[1]), ParseNat(info[2]), None, None, None, 0, [], []);
      if typ == INVALID then Err(InvalidType)
      else if IsAccess(typ) then
        if |info| < 8 then Err(MissingField)
        else if ParseNat(info[4]).None? || ParseNat(info[5]).None? || ParseNat(info[6]).None? ||
             ParseNat(info[7]).None? then Err(BadNumber)
        else Ok(r.(pAddr := ParseNat(info[4]), size := ParseNat(info[5]), flags := ParseNat(info[6]),
                   compDelay := ParseNat(info[7]).value))
      else
        if |info| < 5 then Err(MissingField)
        else if ParseNat(info[4]).None? then Err(BadNumber)
        else Ok(r.(compDelay := ParseNat(info[4]).value))
  }

  function Parse(line: string): Result {
    var parts := Split(Strip(line), ':');
    if |parts| != 3 then Err(WrongParts)
    else
      var info := ParseInfo(Split(parts[0], ','));
      if info.Err? then info
      else
        var rob, reg := ParseDeps(Split(Strip(parts[1]), ',')), ParseDeps(Split(parts[2], ','));
        if rob.None? || reg.None? then Err(BadNumber)
        else Ok(info.record.(robDep := rob.value, regDep := reg.value))
  }

  /** The encoder's loop over one dependency list. */
  method ReadDeps(items: seq<string>) returns (deps: Option<seq<nat>>)
    ensures deps == ParseDeps(items)
  {
    var found := [];
    for k := 0 to |items|
      invariant ParseDeps(items[..k]) == Some(found)
    {
      assert items[..k + 1][..k] == items[..k];
      if items[k] != "" {
        var n := ParseNat(items[k]);
        if n.None? {
          DepsFail(items, k);
          return None;
        }
        found := found + [n.value];
      }
    }
    assert items[..|items|] == items;
    return Some(found);
  }

  lemma {:induction false} DepsFail(items: seq<string>, k: nat)
    requires k < |items| && items[k] != "" && ParseNat(items[k]).None?
    ensures ParseDeps(items).None?
  {
    if k < |items| - 1 {
      DepsFail(items[..|items| - 1], k);
    }
  }

  /** One pass of the encoder's line loop. */
  method ParseLine(line: string) returns (r: Result)
    ensures r == Parse(line)
  {
    var parts := Split(Strip(line), ':');
    if |parts| != 3 {
      return Err(WrongParts);
    }
    var info := ParseInfo(Split(parts[0], ','));
    if info.Err? {
      return info;
    }
    var rob := ReadDeps(Split(Strip(parts[1]), ','));
    if rob.None? {
      return Err(BadNumber);
    }
    var reg := ReadDeps(Split(parts[2], ','));
    if reg.None? {
      return Err(BadNumber);
    }
    return Ok(info.record.(robDep := rob.value, regDep := reg.value));
  }

  // ---- Round trip ----

  /** The record with the defaults that the printer writes out. */
  function Normalise(r: Record): Record {
    r.(pc := Some(OrElse(r.pc, 0)), weight := Some(OrElse(r.weight, 1)))
  }

  /** Loads and stores carry address, size and flags; computations carry none of them. */
  predicate WellFormed(r: Record) {
    match r.typ
    case INVALID => false
    case COMP => r.pAddr.None? && r.size.None? && r.flags.None?
    case _ => r.pAddr.Some? && r.size.Some? && r.flags.Some?
  }

  lemma {:induction false} NumeralsPlain(deps: seq<nat>, c: char)
    requires !IsDigit(c)
    ensures |Numerals(deps)| == |deps|
    ensures forall i | 0 <= i < |deps| :: Numerals(deps)[i] == Decimal(deps[i]) && c !in Numerals(deps)[i]
  {
    if deps != [] {
      NumeralsPlain(deps[..|deps| - 1], c);
      DecimalChars(deps[|deps| - 1], c);
    }
  }

  lemma {:induction false} ParseNumerals(deps: seq<nat>)
    ensures ParseDeps([""] + Numerals(deps)) == Some(deps)
  {
    var items := [""] + Numerals(deps);
    if deps == [] {
      assert items == [""] && items[..0] == [];
    } else {
      var before := deps[..|deps| - 1];
      ParseNumerals(before);
      ParseDecimal(deps[|deps| - 1]);
      assert items[..|items| - 1] == [""] + Numerals(before);
      assert deps == before + [deps[|deps| - 1]];
    }
  }

  lemma DepTextBack(deps: seq<nat>)
    ensures ParseDeps(Split(DepText(deps), ',')) == Some(deps) && ':' !in DepText(deps)
  {
    NumeralsPlain(deps, ',');
    SplitJoin([""] + Numerals(deps), ',');
    ParseNumerals(deps);
    NumeralsPlain(deps, ':');
    JoinChars([""] + Numerals(deps), ',', ':');
  }

  /** A printed list is empty or runs from a comma to a digit, so stripping leaves it alone. */
  lemma DepTextEnds(deps: seq<nat>)
    ensures Strip(DepText(deps)) == DepText(deps)
    ensures DepText(deps) != "" ==> !IsSpace(DepText(deps)[|DepText(deps)| - 1])
  {
    if deps == [] {
      assert DepText(deps) == "";
    } else {
      var before, last := deps[..|deps| - 1], Decimal(deps[|deps| - 1]);
      var all := [""] + Numerals(deps);
      JoinAppend([""] + Numerals(before), last, ',');
      assert all == ([""] + Numerals(before)) + [last];
      var s := DepText(deps);
      assert s == "" + [','] + Join(all[1..], ',');
      assert s[|s| - 1] == last[|last| - 1];
      StripLine(s);
    }
  }

  lemma FieldsPlain(r: Record, c: char)
    requires c == ',' || c == ':'
    ensures forall i | 0 <= i < |Fields(r)| :: c !in Fields(r)[i]
  {
    forall n: nat ensures c !in Decimal(n) { DecimalChars(n, c); }
  }

  /** A printed line splits into its three parts again. */
  lemma LineSplits(r: Record)
    ensures Split(Strip(Line(r)), ':') == [Join(Fields(r), ','), DepText(r.robDep), DepText(r.regDep)]
    ensures Split(Join(Fields(r), ','), ',') == Fields(r)
  {
    var info, rob, reg := Join(Fields(r), ','), DepText(r.robDep), DepText(r.regDep);
    FieldsPlain(r, ',');
    FieldsPlain(r, ':');
    SplitJoin(Fields(r), ',');
    JoinChars(Fields(r), ',', ':');
    DepTextBack(r.robDep);
    DepTextBack(r.regDep);
    SplitJoin([info, rob, reg], ':');
    LineParts(info, rob, reg);
    var s := Join([info, rob, reg], ':');
    assert info == Decimal(r.seqNum) + [','] + Join(Fields(r)[1..], ',');
    assert s[0] == Decimal(r.seqNum)[0];
    DepTextEnds(r.regDep);
    assert s[|s| - 1] == if reg == "" then ':' else reg[|reg| - 1];
    StripLine(s);
  }

  lemma HeadBack(r: Record)
    ensures var f := Fields(r);
            && |f| >= 5 && ParseNat(f[0]) == Some(r.seqNum) && TypeNamed(f[3]) == Some(r.typ)
            && ParseNat(f[1]) == Some(OrElse(r.pc, 0)) && ParseNat(f[2]) == Some(OrElse(r.weight, 1))
  {
    ParseDecimal(r.seqNum);
    ParseDecimal(OrElse(r.pc, 0));
    ParseDecimal(OrElse(r.weight, 1));
  }

  lemma OptionalBack(x: Option<nat>)
    ensures x.Some? ==> OptionalField(x) == [Decimal(x.value)] && ParseNat(Decimal(x.value)) == x
    ensures x.None? ==> OptionalField(x) == []
  {
    if x.Some? {
      ParseDecimal(x.value);
    }
  }

  /** What the parser makes of the printed fields behind the type. */
  lemma InfoBack(r: Record)
    ensures WellFormed(r) ==> ParseInfo(Fields(r)) == Ok(Normalise(r).(robDep := [], regDep := []))
    ensures !WellFormed(r) && ParseInfo(Fields(r)).Ok? ==>
              var p := ParseInfo(Fields(r)).record; p.pAddr != r.pAddr || p.size != r.size || p.flags != r.flags
  {
    HeadBack(r);
    OptionalBack(r.pAddr);
    OptionalBack(r.size);
    OptionalBack(r.flags);
    ParseDecimal(r.compDelay);
    var f := Fields(r);
    if IsAccess(r.typ) && WellFormed(r) {
      assert f[4..] == [Decimal(r.pAddr.value), Decimal(r.size.value), Decimal(r.flags.value), Decimal(r.compDelay)];
      assert f[4] == f[4..][0] && f[5] == f[4..][1] && f[6] == f[4..][2] && f[7] == f[4..][3];
    } else if WellFormed(r) {
      assert f[4] == Decimal(r.compDelay);
    }
  }

  /** Parsing the printed line gives the record back, defaults filled in and all dependencies in order,
      exactly for the well-formed records. */
  lemma LineRoundTrip(r: Record)
    ensures Parse(Line(r)) == Ok(Normalise(r)) <==> WellFormed(r)
  {
    LineSplits(r);
    InfoBack(r);
    DepTextBack(r.robDep);
    DepTextBack(r.regDep);
    DepTextEnds(r.robDep);
  }

  /** Printing what was parsed reproduces the printed line. */
  lemma NormalisedPrintsTheSame(r: Record)
    ensures Line(Normalise(r)) == Line(r)
  {
    assert Fields(Normalise(r)) == Fields(r);
  }

  // ---- Lines that were not printed by the decoder ----

  /** Blanks around a line are ignored. */
  lemma BlanksIgnored(a: string, line: string, b: string)
    requires Blank(a) && Blank(b)
    ensures Parse(a + line + b) == Parse(line)
  {
    StripAround(a, line, b);
  }

  /** A line is split up exactly if it has two colons. */
  lemma TwoColons(line: string)
    ensures Parse(line) == Err(WrongParts) <==> multiset(line)[':'] != 2
  {
    SplitCount(Strip(line), ':');
    var a, b := StripShape(line);
    BlankHasNo(a, ':');
    BlankHasNo(b, ':');
    assert multiset(line)[':'] == multiset(a)[':'] + multiset(Strip(line))[':'] + multiset(b)[':'];
  }

  lemma BlankHasNo(s: string, c: char)
    requires Blank(s) && !IsSpace(c)
    ensures multiset(s)[c] == 0
  {
    assert c !in s;
  }

  /** Fields behind the last one that is used are ignored. */
  lemma ExtraFieldsIgnored(info: seq<string>, extra: seq<string>)
    requires ParseInfo(info).Ok?
    ensures ParseInfo(info + extra) == ParseInfo(info)
  {
  }

  /** Empty items of a dependency list are ignored. */
  lemma {:induction false} EmptyItemsIgnored(before: seq<string>, after: seq<string>)
    ensures ParseDeps(before + [""] + after) == ParseDeps(before + after)
  {
    var items := before + [""] + after;
    if after == [] {
      assert before + after == before && items[..|items| - 1] == before;
    } else {
      var n := |after| - 1;
      assert items[..|items| - 1] == before + [""] + after[..n];
      assert (before + after)[..|before| + n] == before + after[..n];
      EmptyItemsIgnored(before, after[..n]);
    }
  }

  /** What is printed for a record without program counter or weight. */
  lemma DefaultsPrinted(r: Record)
    ensures Fields(r)[1] == if r.pc.None? then "0" else Decimal(r.pc.value)
    ensures Fields(r)[2] == if r.weight.None? then "1" else Decimal(r.weight.value)
  {
  }

  // ---- The documented format ----

  lemma Join5(a: string, b: string, c: string, d: string, e: string)
    ensures Join([a, b, c, d, e], ',') == a + "," + b + "," + c + "," + d + "," + e
  {
    JoinAppend([a], b, ',');
    JoinAppend([a, b], c, ',');
    JoinAppend([a, b, c], d, ',');
    JoinAppend([a, b, c, d], e, ',');
    assert [a] + [b] == [a, b] && [a, b] + [c] == [a, b, c];
    assert [a, b, c] + [d] == [a, b, c, d] && [a, b, c, d] + [e] == [a, b, c, d, e];
  }

  lemma Join8(f: seq<string>)
    requires |f| == 8
    ensures Join(f, ',') == Join(f[..5], ',') + "," + f[5] + "," + f[6] + "," + f[7]
  {
    JoinAppend(f[..5], f[5], ',');
    JoinAppend(f[..6], f[6], ',');
    JoinAppend(f[..7], f[7], ',');
    assert f[..5] + [f[5]] == f[..6] && f[..6] + [f[6]] == f[..7] && f[..7] + [f[7]] == f;
  }

  /** seq_num,pc,weight,COMP,comp_delay */
  lemma ComputationInfo(r: Record)
    requires r.typ == COMP && WellFormed(r)
    ensures var pc := if r.pc.None? then "0" else Decimal(r.pc.value);
            var weight := if r.weight.None? then "1" else Decimal(r.weight.value);
            Join(Fields(r), ',') ==
              Decimal(r.seqNum) + "," + pc + "," + weight + "," + "COMP" + "," + Decimal(r.compDelay)
  {
    DefaultsPrinted(r);
    var a, b, c, e := Decimal(r.seqNum), Fields(r)[1], Fields(r)[2], Decimal(r.compDelay);
    assert Fields(r) == [a, b, c, "COMP", e];
    Join5(a, b, c, "COMP", e);
  }

  /** seq_num,pc,weight,type,p_addr,size,flags,comp_delay */
  lemma AccessInfo(r: Record)
    requires IsAccess(r.typ) && WellFormed(r)
    ensures var pc := if r.pc.None? then "0" else Decimal(r.pc.value);
            var weight := if r.weight.None? then "1" else Decimal(r.weight.value);
            var name := if r.typ == LOAD then "LOAD" else "STORE";
            Join(Fields(r), ',') ==
              (Decimal(r.seqNum) + "," + pc + "," + weight + "," + name + "," + Decimal(r.pAddr.value))
              + "," + Decimal(r.size.value) + "," + Decimal(r.flags.value) + "," + Decimal(r.compDelay)
  {
    DefaultsPrinted(r);
    var a, b, c, e := Decimal(r.seqNum), Fields(r)[1], Fields(r)[2], Decimal(r.pAddr.value);
    var f, d := Fields(r), if r.typ == LOAD then "LOAD" else "STORE";
    assert f == [a, b, c, d, e, Decimal(r.size.value), Decimal(r.flags.value), Decimal(r.compDelay)];
    assert f[..5] == [a, b, c, d, e];
    Join5(a, b, c, d, e);
    Join8(f);
  }

  /** Two colons separate the fields and the two dependency lists. */
  lemma LineLayout(r: Record)
    ensures Line(r) == Join(Fields(r), ',') + ":" + DepText(r.robDep) + ":" + DepText(r.regDep) + "\n"
  {
    LineParts(Join(Fields(r), ','), DepText(r.robDep), DepText(r.regDep));
  }

  /** A dependency list: a comma in front of every element. */
  lemma DepTextLayout(deps: seq<nat>, d: nat)
    ensures DepText([]) == "" && DepText(deps + [d]) == DepText(deps) + "," + Decimal(d)
  {
    assert (deps + [d])[..|deps|] == deps;
    assert Numerals(deps + [d]) == Numerals(deps) + [Decimal(d)];
    JoinAppend([""] + Numerals(deps), Decimal(d), ',');
    assert [""] + Numerals(deps + [d]) == ([""] + Numerals(deps)) + [Decimal(d)];
  }
}
