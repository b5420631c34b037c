/** SAS ports of an ATTO FibreBridge (`cmk/base/legacy_checks/atto_fibrebridge_sas.py`):
    the SNMP table parser, the discovery of enabled ports and the check of one
    port. Every code is looked up in a partial table, so a code outside the
    table, a cell that is not an integer or a short row makes parsing fail. */
module AttoFibrebridgeSas {
  import opened Wrappers
  import opened Strings

  /** The exception that stops parsing or checking. */
  datatype Error =
    | IndexError(index: nat)
    | ValueError(text: string)
    | CodeKeyError(code: int)
    | ItemKeyError(item: string)
    | StateKeyError(state: string)

  /** One parsed row: `oper_state`, `admin_state` and `state_phy_1` .. `state_phy_4`. */
  datatype PortInfo = PortInfo(operState: string, adminState: string, phyStates: seq<string>)

  /** The parsed section: ports by item, in first-insertion order, keys distinct. */
  type Parsed = seq<(string, PortInfo)>

  /** A code-to-name table; `None` where the table has no entry. */
  type CodeTable = int -> Option<string>

  function PhyOperState(code: int): Option<string> {
    if code == -1 then Some("unknown")
    else if code == 1 then Some("online")
    else if code == 2 then Some("offline")
    else None
  }

  /** The SAS operational states as written, with the trailing comma on code 3. */
  function SasOperState(code: int): Option<string> {
    if code == -1 then Some("unknown")
    else if code == 1 then Some("online")
    else if code == 2 then Some("offline")
    else if code == 3 then Some("degraded,")
    else None
  }

  /** The SAS operational states as evidently intended: code 3 names the
      severity table's "degraded". */
  function SasOperStateIntended(code: int): Option<string> {
    if code == -1 then Some("unknown")
    else if code == 1 then Some("online")
    else if code == 2 then Some("offline")
    else if code == 3 then Some("degraded")
    else None
  }

  function SasAdminState(code: int): Option<string> {
    if code == -1 then Some("unknown")
    else if code == 1 then Some("disabled")
    else if code == 2 then Some("enabled")
    else None
  }

  /** `table[int(line[index])]`. */
  function Decode(line: seq<string>, index: nat, table: CodeTable): (r: Result<string, Error>)
    ensures r.Success? <==>
      index < |line| && ParseInt(line[index]).Some? && table(ParseInt(line[index]).value).Some?
    ensures r.Success? ==> Some(r.value) == table(ParseInt(line[index]).value)
  {
    if index >= |line| then Failure(IndexError(index))
    else
      var code :- match ParseInt(line[index])
                  case None => Failure(ValueError(line[index]))
                  case Some(v) => Success(v);
      match table(code)
      case None => Failure(CodeKeyError(code))
      case Some(name) => Success(name)
  }

  /** Whether every cell the row parser reads decodes. */
  predicate RowDecodes(line: seq<string>, sasOper: CodeTable) {
    && Decode(line, 1, sasOper).Success?
    && Decode(line, 6, SasAdminState).Success?
    && Decode(line, 2, PhyOperState).Success?
    && Decode(line, 3, PhyOperState).Success?
    && Decode(line, 4, PhyOperState).Success?
    && Decode(line, 5, PhyOperState).Success?
  }

  /** One row: the oper state from cell 1, the admin state from cell 6, the
      PHY states from cells 2 to 5, keyed by cell 0. */
  function ParseRow(line: seq<string>, sasOper: CodeTable): (r: Result<(string, PortInfo), Error>)
    ensures r.Success? <==> RowDecodes(line, sasOper)
    ensures r.Success? ==>
      && |line| >= 7
      && r.value.0 == line[0]
      && Decode(line, 1, sasOper) == Success(r.value.1.operState)
      && Decode(line, 6, SasAdminState) == Success(r.value.1.adminState)
      && |r.value.1.phyStates| == 4
      && Decode(line, 2, PhyOperState) == Success(r.value.1.phyStates[0])
      && Decode(line, 3, PhyOperState) == Success(r.value.1.phyStates[1])
      && Decode(line, 4, PhyOperState) == Success(r.value.1.phyStates[2])
      && Decode(line, 5, PhyOperState) == Success(r.value.1.phyStates[3])
  {
    var oper :- Decode(line, 1, sasOper);
    var admin :- Decode(line, 6, SasAdminState);
    var phy1 :- Decode(line, 2, PhyOperState);
    var phy2 :- Decode(line, 3, PhyOperState);
    var phy3 :- Decode(line, 4, PhyOperState);
    var phy4 :- Decode(line, 5, PhyOperState);
    Success((line[0], PortInfo(oper, admin, [phy1, phy2, phy3, phy4])))
  }

  function Keys(p: Parsed): (ks: seq<string>)
    ensures |ks| == |p|
    ensures forall i :: 0 <= i < |p| ==> ks[i] == p[i].0
  {
    if |p| == 0 then [] else [p[0].0] + Keys(p[1..])
  }

  predicate DistinctKeys(p: Parsed) {
    forall i, j :: 0 <= i < j < |p| ==> p[i].0 != p[j].0
  }

  function Lookup(p: Parsed, key: string): (r: Option<PortInfo>)
    ensures r.Some? <==> key in Keys(p)
  {
    if |p| == 0 then None
    else if p[0].0 == key then Some(p[0].1)
    else Lookup(p[1..], key)
  }

  /** `parsed[key] = info`: an existing key keeps its position. */
  function Put(p: Parsed, key: string, info: PortInfo): (r: Parsed)
    ensures Keys(r) == if key in Keys(p) then Keys(p) else Keys(p) + [key]
    ensures forall i :: 0 <= i < |p| && p[i].0 != key ==> r[i] == p[i]
  {
    if |p| == 0 then [(key, info)]
    else if p[0].0 == key then
      assert ([(key, info)] + p[1..])[1..] == p[1..];
      [(key, info)] + p[1..]
    else
      var rest := Put(p[1..], key, info);
      assert ([p[0]] + rest)[1..] == rest;
      [p[0]] + rest
  }

  /** The keys after `Put` are the old keys and the new one. */
  lemma PutKeys(p: Parsed, key: string, info: PortInfo, other: string)
    ensures other in Keys(Put(p, key, info)) <==> other in Keys(p) || other == key
  {
  }

  lemma {:induction false} PutLookup(p: Parsed, key: string, info: PortInfo, other: string)
    ensures Lookup(Put(p, key, info), key) == Some(info)
    ensures other != key ==> Lookup(Put(p, key, info), other) == Lookup(p, other)
  {
    if |p| > 0 && p[0].0 != key {
      PutLookup(p[1..], key, info, other);
    }
  }

  lemma {:induction false} PutDistinct(p: Parsed, key: string, info: PortInfo)
    requires DistinctKeys(p)
    ensures DistinctKeys(Put(p, key, info))
  {
    var r := Put(p, key, info);
    forall i, j | 0 <= i < j < |r| ensures r[i].0 != r[j].0 {
      assert Keys(r)[i] == r[i].0 && Keys(r)[j] == r[j].0;
      if key in Keys(p) {
        assert Keys(p)[i] == p[i].0 && Keys(p)[j] == p[j].0;
      } else if j < |p| {
        assert Keys(p)[i] == p[i].0 && Keys(p)[j] == p[j].0;
      } else {
        assert Keys(p)[i] == p[i].0;
      }
    }
  }

  /** A row parser: one table row to its item and port. */
  type RowParser = seq<string> -> Result<(string, PortInfo), Error>

  /** The row parser of this check, for a given SAS operational state table. */
  function RowParserWith(sasOper: CodeTable): RowParser {
    line => ParseRow(line, sasOper)
  }

  /** Whether a row parser keys every row it accepts by the row's first cell. */
  ghost predicate KeyedByFirstCell(parseRow: RowParser) {
    forall line :: parseRow(line).Success? ==> |line| > 0 && line[0] == parseRow(line).value.0
  }

  lemma RowParserKeyed(sasOper: CodeTable)
    ensures KeyedByFirstCell(RowParserWith(sasOper))
  {
    forall line | RowParserWith(sasOper)(line).Success?
      ensures |line| > 0 && line[0] == RowParserWith(sasOper)(line).value.0
    {
      assert RowParserWith(sasOper)(line) == ParseRow(line, sasOper);
    }
  }

  /** The loop of `parse_atto_fibrebridge_sas`: each row in turn is stored
      under its item into what the earlier rows built; the first row that
      fails stops the parse. */
  function ParseInto(rows: seq<seq<string>>, parseRow: RowParser, acc: Parsed): (r: Result<Parsed, Error>)
    requires DistinctKeys(acc)
    ensures r.Success? <==> forall i :: 0 <= i < |rows| ==> parseRow(rows[i]).Success?
    ensures r.Success? ==> DistinctKeys(r.value)
  {
    if |rows| == 0 then Success(acc)
    else
      match parseRow(rows[0])
      case Failure(e) => Failure(e)
      case Success(entry) =>
        PutDistinct(acc, entry.0, entry.1);
        var r := ParseInto(rows[1..], parseRow, Put(acc, entry.0, entry.1));
        assert forall i :: 1 <= i < |rows| ==> rows[1..][i - 1] == rows[i];
        r
  }

  /** `parse_atto_fibrebridge_sas` with a given SAS operational state table. */
  function ParseWith(table: seq<seq<string>>, sasOper: CodeTable): (r: Result<Parsed, Error>)
    ensures r.Success? <==> forall i :: 0 <= i < |table| ==> RowDecodes(table[i], sasOper)
    ensures r.Success? ==> DistinctKeys(r.value)
  {
    var r := ParseInto(table, RowParserWith(sasOper), []);
    assert forall i :: 0 <= i < |table| ==> RowParserWith(sasOper)(table[i]) == ParseRow(table[i], sasOper);
    r
  }

  /** The parser as written. */
  function Parse(table: seq<seq<string>>): Result<Parsed, Error> {
    ParseWith(table, SasOperState)
  }

  /** The port the rows describe for an item: that of the last row carrying it. */
  ghost function LastRowFor(rows: seq<seq<string>>, key: string, parseRow: RowParser): Option<PortInfo>
    requires forall i :: 0 <= i < |rows| ==> parseRow(rows[i]).Success?
  {
    if |rows| == 0 then None
    else
      assert forall i :: 1 <= i < |rows| ==> rows[1..][i - 1] == rows[i];
      match LastRowFor(rows[1..], key, parseRow)
      case Some(info) => Some(info)
      case None =>
        var entry := parseRow(rows[0]).value;
        if entry.0 == key then Some(entry.1) else None
  }

  /** A later row overwrites what earlier rows stored for the same item;
      items no row carries keep what was there. */
  lemma {:induction false} ParsedIsLastRow(rows: seq<seq<string>>, parseRow: RowParser, acc: Parsed, key: string)
    requires DistinctKeys(acc)
    requires ParseInto(rows, parseRow, acc).Success?
    ensures Lookup(ParseInto(rows, parseRow, acc).value, key) ==
      if LastRowFor(rows, key, parseRow).Some? then LastRowFor(rows, key, parseRow) else Lookup(acc, key)
  {
    if |rows| > 0 {
      var entry := parseRow(rows[0]).value;
      PutDistinct(acc, entry.0, entry.1);
      var next := Put(acc, entry.0, entry.1);
      assert ParseInto(rows, parseRow, acc) == ParseInto(rows[1..], parseRow, next);
      ParsedIsLastRow(rows[1..], parseRow, next, key);
      PutLookup(acc, entry.0, entry.1, key);
    }
  }

  /** Every item maps to its last row. */
  lemma SectionLookup(table: seq<seq<string>>, sasOper: CodeTable, key: string)
    requires ParseWith(table, sasOper).Success?
    ensures Lookup(ParseWith(table, sasOper).value, key) == LastRowFor(table, key, RowParserWith(sasOper))
  {
    ParsedIsLastRow(table, RowParserWith(sasOper), [], key);
  }

  /** Whether some row carries the item in column 0. */
  predicate HasRowFor(rows: seq<seq<string>>, key: string) {
    exists i :: 0 <= i < |rows| && |rows[i]| > 0 && rows[i][0] == key
  }

  lemma HasRowForCons(rows: seq<seq<string>>, key: string)
    requires |rows| > 0
    ensures HasRowFor(rows, key) <==> (|rows[0]| > 0 && rows[0][0] == key) || HasRowFor(rows[1..], key)
  {
    if HasRowFor(rows, key) {
      var i :| 0 <= i < |rows| && |rows[i]| > 0 && rows[i][0] == key;
      if i > 0 {
        assert rows[1..][i - 1] == rows[i];
      }
    }
    if HasRowFor(rows[1..], key) {
      var i :| 0 <= i < |rows| - 1 && |rows[1..][i]| > 0 && rows[1..][i][0] == key;
      assert rows[i + 1] == rows[1..][i];
    }
  }

  /** The items after parsing are those there before and those of the rows. */
  lemma {:induction false} ParsedItems(rows: seq<seq<string>>, parseRow: RowParser, acc: Parsed, key: string)
    requires KeyedByFirstCell(parseRow)
    requires DistinctKeys(acc)
    requires ParseInto(rows, parseRow, acc).Success?
    ensures key in Keys(ParseInto(rows, parseRow, acc).value) <==> key in Keys(acc) || HasRowFor(rows, key)
  {
    if |rows| > 0 {
      var entry := parseRow(rows[0]).value;
      PutDistinct(acc, entry.0, entry.1);
      var next := Put(acc, entry.0, entry.1);
      assert ParseInto(rows, parseRow, acc) == ParseInto(rows[1..], parseRow, next);
      ParsedItems(rows[1..], parseRow, next, key);
      PutKeys(acc, entry.0, entry.1, key);
      HasRowForCons(rows, key);
    }
  }

  /** The items of the section are exactly the first cells of its rows. */
  lemma SectionItems(table: seq<seq<string>>, sasOper: CodeTable, key: string)
    requires ParseWith(table, sasOper).Success?
    ensures key in Keys(ParseWith(table, sasOper).value) <==> HasRowFor(table, key)
  {
    RowParserKeyed(sasOper);
    ParsedItems(table, RowParserWith(sasOper), [], key);
  }

  /** A PHY code outside {-1, 1, 2}, such as 3, stops parsing. */
  lemma PhyCodeThreeRejected(item: string)
    ensures Parse([[item, "1", "3", "1", "1", "1", "2"]]) == Failure(CodeKeyError(3))
  {
    var line := [item, "1", "3", "1", "1", "1", "2"];
    assert ParseInt("1") == Some(1) by { IntRoundTrip(1); }
    assert ParseInt("2") == Some(2) by { IntRoundTrip(2); }
    assert ParseInt("3") == Some(3) by { IntRoundTrip(3); }
    assert Decode(line, 2, PhyOperState) == Failure(CodeKeyError(3));
    assert ParseRow(line, SasOperState) == Failure(CodeKeyError(3));
    assert RowParserWith(SasOperState)(line) == ParseRow(line, SasOperState);
  }

  /** `inventory_atto_fibrebridge_sas`: the items of the enabled ports, in order. */
  function Discover(p: Parsed): (items: seq<string>)
    ensures |items| <= |p|
  {
    if |p| == 0 then []
    else (if p[0].1.adminState == "enabled" then [p[0].0] else []) + Discover(p[1..])
  }

  lemma {:induction false} DiscoverExactlyEnabled(p: Parsed, item: string)
    ensures item in Discover(p) <==> exists i :: 0 <= i < |p| && p[i].0 == item && p[i].1.adminState == "enabled"
  {
    if |p| > 0 {
      DiscoverExactlyEnabled(p[1..], item);
      if exists i :: 0 <= i < |p| && p[i].0 == item && p[i].1.adminState == "enabled" {
        var i :| 0 <= i < |p| && p[i].0 == item && p[i].1.adminState == "enabled";
        if i > 0 {
          assert p[1..][i - 1] == p[i];
        }
      }
    }
  }

  function OperStateSeverity(state: string): (r: Option<int>)
    ensures r.Some? ==> 0 <= r.value <= 3
  {
    if state == "unknown" then Some(3)
    else if state == "online" then Some(0)
    else if state == "degraded" then Some(1)
    else if state == "offline" then Some(2)
    else None
  }

  /** `check_atto_fibrebridge_sas`: the operational state with its severity,
      then one line per PHY, always OK. */
  function Check(item: string, p: Parsed): (r: Result<seq<(int, string)>, Error>)
    ensures r.Failure? <==>
      Lookup(p, item).None? || OperStateSeverity(Lookup(p, item).value.operState).None?
    ensures r.Failure? && Lookup(p, item).None? ==> r.error == ItemKeyError(item)
    ensures r.Success? ==>
      var info := Lookup(p, item).value;
      && |r.value| == 5
      && Some(r.value[0].0) == OperStateSeverity(info.operState)
      && r.value[0].1 == "Operational state: " + info.operState
      && (forall k :: 1 <= k <= 4 ==> r.value[k].0 == 0 && StartsWith(r.value[k].1, "PHY" + IntToString(k)))
      && (|info.phyStates| == 4 ==> forall k :: 1 <= k <= 4 ==>
            r.value[k].1 == "PHY" + IntToString(k) + " operational state: " + info.phyStates[k - 1])
  {
    match Lookup(p, item)
    case None => Failure(ItemKeyError(item))
    case Some(info) =>
      match OperStateSeverity(info.operState)
      case None => Failure(StateKeyError(info.operState))
      case Some(severity) =>
        Success([(severity, "Operational state: " + info.operState)] + seq(4, k requires 0 <= k < 4 => PhyLine(info, k)))
  }

  /** The always-OK line of the PHY with 0-based index `k`. */
  function PhyLine(info: PortInfo, k: nat): (r: (int, string))
    ensures r.0 == 0 && StartsWith(r.1, "PHY" + IntToString(k + 1))
    ensures k < |info.phyStates| ==> r.1 == "PHY" + IntToString(k + 1) + " operational state: " + info.phyStates[k]
  {
    (0, "PHY" + IntToString(k + 1) + " operational state: " + PhyStateOf(info, k))
  }

  function PhyStateOf(info: PortInfo, k: nat): string {
    if k < |info.phyStates| then info.phyStates[k] else ""
  }

  /** The row of a degraded port, as the table as written reads it. */
  lemma DegradedRow(item: string)
    ensures ParseRow([item, "3", "1", "1", "1", "1", "2"], SasOperState)
      == Success((item, PortInfo("degraded,", "enabled", ["online", "online", "online", "online"])))
  {
    var line := [item, "3", "1", "1", "1", "1", "2"];
    assert ParseInt("1") == Some(1) by { IntRoundTrip(1); }
    assert ParseInt("2") == Some(2) by { IntRoundTrip(2); }
    assert ParseInt("3") == Some(3) by { IntRoundTrip(3); }
    assert Decode(line, 1, SasOperState) == Success("degraded,");
    assert Decode(line, 6, SasAdminState) == Success("enabled");
    assert Decode(line, 2, PhyOperState) == Success("online");
    assert Decode(line, 3, PhyOperState) == Success("online");
    assert Decode(line, 4, PhyOperState) == Success("online");
    assert Decode(line, 5, PhyOperState) == Success("online");
  }

  /** As written, a port whose SAS code is 3 parses, but checking it fails on
      the name "degraded,". */
  lemma DegradedPortFailsAsWritten(item: string)
    ensures Parse([[item, "3", "1", "1", "1", "1", "2"]]).Success?
    ensures Check(item, Parse([[item, "3", "1", "1", "1", "1", "2"]]).value) == Failure(StateKeyError("degraded,"))
  {
    var line := [item, "3", "1", "1", "1", "1", "2"];
    var info := PortInfo("degraded,", "enabled", ["online", "online", "online", "online"]);
    DegradedRow(item);
    assert RowParserWith(SasOperState)(line) == Success((item, info));
    assert ParseInto([line][1..], RowParserWith(SasOperState), [(item, info)]) == Success([(item, info)]);
    assert Parse([line]) == Success([(item, info)]);
    assert Lookup([(item, info)], item) == Some(info);
  }

  /** With the intended table every parsed port can be checked. */
  lemma CheckTotalWhenIntended(table: seq<seq<string>>, item: string)
    requires ParseWith(table, SasOperStateIntended).Success?
    requires item in Keys(ParseWith(table, SasOperStateIntended).value)
    ensures Check(item, ParseWith(table, SasOperStateIntended).value).Success?
  {
    var parser := RowParserWith(SasOperStateIntended);
    SectionLookup(table, SasOperStateIntended, item);
    LastRowIsARow(table, item, parser);
    var i :| 0 <= i < |table| && parser(table[i]).value.1 == LastRowFor(table, item, parser).value;
    assert parser(table[i]) == ParseRow(table[i], SasOperStateIntended);
    IntendedOperHasSeverity(table[i]);
  }

  /** Every parsed port carries exactly four PHY states, so `Check` prints
      each PHY's own state. */
  lemma ParsedPortsHaveFourPhys(table: seq<seq<string>>, sasOper: CodeTable, item: string)
    requires ParseWith(table, sasOper).Success?
    ensures var info := Lookup(ParseWith(table, sasOper).value, item);
      info.Some? ==> |info.value.phyStates| == 4
  {
    var parser := RowParserWith(sasOper);
    SectionLookup(table, sasOper, item);
    LastRowIsARow(table, item, parser);
    if LastRowFor(table, item, parser).Some? {
      var i :| 0 <= i < |table| && parser(table[i]).value.1 == LastRowFor(table, item, parser).value;
      assert parser(table[i]) == ParseRow(table[i], sasOper);
    }
  }

  /** The port found for an item is the port of one of the rows. */
  lemma {:induction false} LastRowIsARow(rows: seq<seq<string>>, key: string, parseRow: RowParser)
    requires forall i :: 0 <= i < |rows| ==> parseRow(rows[i]).Success?
    ensures LastRowFor(rows, key, parseRow).Some? ==>
      exists i :: 0 <= i < |rows| && parseRow(rows[i]).value.1 == LastRowFor(rows, key, parseRow).value
  {
    if |rows| > 0 {
      assert forall i :: 1 <= i < |rows| ==> rows[1..][i - 1] == rows[i];
      LastRowIsARow(rows[1..], key, parseRow);
      if LastRowFor(rows[1..], key, parseRow).Some? {
        var i :| 0 <= i < |rows| - 1 && parseRow(rows[1..][i]).value.1 == LastRowFor(rows[1..], key, parseRow).value;
        assert rows[i + 1] == rows[1..][i];
      }
    }
  }

  /** Every oper state of the intended table has a severity. */
  lemma IntendedOperHasSeverity(line: seq<string>)
    requires ParseRow(line, SasOperStateIntended).Success?
    ensures OperStateSeverity(ParseRow(line, SasOperStateIntended).value.1.operState).Some?
  {
  }
}
