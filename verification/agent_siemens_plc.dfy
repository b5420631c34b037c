/** The argument builder of the Siemens PLC special agent
    (`agent_siemens_plc_arguments` in `cmk/base/legacy_checks/agent_siemens_plc.py`):
    an optional timeout, then one `--hostspec` per device whose value is a
    `;`-separated record of the device's address and of the values to read. */
module AgentSiemensPlc {
  import opened Wrappers
  import opened Strings
  import opened SpecialAgentArgs

  /** One part of a value description, already rendered with `str`: a
      single item or a tuple of items. */
  datatype Part = Scalar(text: string) | Tuple(items: seq<string>)

  /** A value to read: its parts. */
  type Value = seq<Part>

  datatype Device = Device(
    hostName: string,
    hostAddress: string,
    rack: int,
    slot: int,
    tcpPort: int,
    values: seq<Value>)

  datatype Params = Params(timeout: Option<int>, devices: seq<Device>, values: seq<Value>)

  /** A tuple part joins its items with `:`. */
  function FormatPart(p: Part): string {
    match p
    case Scalar(text) => text
    case Tuple(items) => Join(items, ":")
  }

  function FormatParts(v: Value): (r: seq<string>)
    ensures |r| == |v|
  {
    seq(|v|, i requires 0 <= i < |v| => FormatPart(v[i]))
  }

  /** A value field joins its parts with `,`. */
  function FormatValue(v: Value): string {
    Join(FormatParts(v), ",")
  }

  /** `dev_args += ";%s" % ...` for each value in turn. */
  function ValueFields(vs: seq<Value>): string {
    if |vs| == 0 then "" else ";" + FormatValue(vs[0]) + ValueFields(vs[1..])
  }

  /** The host spec of a device: its address record, then the global values,
      then the device's own. */
  function DeviceSpec(d: Device, globalValues: seq<Value>): string {
    d.hostName + ";" + d.hostAddress + ";" + IntToString(d.rack) + ";" + IntToString(d.slot)
      + ";" + IntToString(d.tcpPort) + ValueFields(globalValues + d.values)
  }

  /** The specs of all devices, in device order. */
  function DeviceSpecs(devices: seq<Device>, globalValues: seq<Value>): (specs: seq<string>)
    ensures |specs| == |devices|
  {
    seq(|devices|, k requires 0 <= k < |devices| => DeviceSpec(devices[k], globalValues))
  }

  /** `--hostspec` before each spec. */
  function HostSpecArgs(specs: seq<string>): (args: seq<Arg>)
    ensures |args| == 2 * |specs|
  {
    if |specs| == 0 then []
    else [Str("--hostspec"), Str(specs[0])] + HostSpecArgs(specs[1..])
  }

  /** Spec `k` is preceded by its flag at positions `2k` and `2k + 1`. */
  lemma {:induction false} HostSpecArgsAt(specs: seq<string>, k: nat)
    requires k < |specs|
    ensures HostSpecArgs(specs)[2 * k] == Str("--hostspec")
    ensures HostSpecArgs(specs)[2 * k + 1] == Str(specs[k])
  {
    if k > 0 {
      HostSpecArgsAt(specs[1..], k - 1);
    }
  }

  /** `agent_siemens_plc_arguments`. */
  function Arguments(p: Params): (args: seq<Arg>)
    ensures |args| == 2 * |p.devices| + (if p.timeout.Some? then 2 else 0)
    ensures p.timeout.Some? ==> args[..2] == [Str("--timeout"), Int(p.timeout.value)]
    ensures var offset := if p.timeout.Some? then 2 else 0;
      forall k :: 0 <= k < |p.devices| ==>
        args[offset + 2 * k] == Str("--hostspec") && args[offset + 2 * k + 1] == Str(DeviceSpec(p.devices[k], p.values))
  {
    var prefix := if p.timeout.Some? then [Str("--timeout"), Int(p.timeout.value)] else [];
    var specs := DeviceSpecs(p.devices, p.values);
    forall k | 0 <= k < |p.devices|
      ensures (prefix + HostSpecArgs(specs))[|prefix| + 2 * k] == Str("--hostspec")
      ensures (prefix + HostSpecArgs(specs))[|prefix| + 2 * k + 1] == Str(DeviceSpec(p.devices[k], p.values))
    {
      PrefixedHostSpecArgsAt(prefix, specs, k);
    }
    prefix + HostSpecArgs(specs)
  }

  /** `HostSpecArgsAt` behind a prefix of other arguments. */
  lemma PrefixedHostSpecArgsAt(prefix: seq<Arg>, specs: seq<string>, k: nat)
    requires k < |specs|
    ensures (prefix + HostSpecArgs(specs))[|prefix| + 2 * k] == Str("--hostspec")
    ensures (prefix + HostSpecArgs(specs))[|prefix| + 2 * k + 1] == Str(specs[k])
  {
    HostSpecArgsAt(specs, k);
  }

  /** Every host spec carries at least the four separators of its address record. */
  lemma DeviceSpecHasSeparator(d: Device, globalValues: seq<Value>)
    ensures ';' in DeviceSpec(d, globalValues)
  {
    var s := DeviceSpec(d, globalValues);
    assert s[|d.hostName|] == ';';
  }

  /** Each device argument is the flag or a spec. */
  lemma {:induction false} HostSpecArgsShape(specs: seq<string>)
    ensures forall a :: a in HostSpecArgs(specs) ==> a == Str("--hostspec") || (a.Str? && a.s in specs)
  {
    if |specs| > 0 {
      HostSpecArgsShape(specs[1..]);
    }
  }

  lemma NotTheFlag(s: string)
    requires ';' in s
    ensures s != "--timeout"
  {
  }

  /** No device spec reads as the timeout flag. */
  lemma SpecsAreNotFlags(devices: seq<Device>, globalValues: seq<Value>)
    ensures "--timeout" !in DeviceSpecs(devices, globalValues)
  {
    var specs := DeviceSpecs(devices, globalValues);
    forall k | 0 <= k < |specs| ensures specs[k] != "--timeout" {
      DeviceSpecHasSeparator(devices[k], globalValues);
      NotTheFlag(specs[k]);
    }
  }

  /** `--timeout` appears exactly when a timeout is configured. */
  lemma TimeoutFlagIff(p: Params)
    ensures Str("--timeout") in Arguments(p) <==> p.timeout.Some?
  {
    if p.timeout.None? {
      var specs := DeviceSpecs(p.devices, p.values);
      assert Arguments(p) == HostSpecArgs(specs);
      HostSpecArgsShape(specs);
      SpecsAreNotFlags(p.devices, p.values);
    } else {
      assert Arguments(p)[0] == Str("--timeout");
    }
  }

  /** The value fields, each rendered on its own. */
  function FormatValues(vs: seq<Value>): (r: seq<string>)
    ensures |r| == |vs|
    ensures forall i :: 0 <= i < |vs| ==> r[i] == FormatValue(vs[i])
  {
    if |vs| == 0 then [] else [FormatValue(vs[0])] + FormatValues(vs[1..])
  }

  /** The fields of a host spec, before joining with `;`. */
  function SpecFields(d: Device, globalValues: seq<Value>): (r: seq<string>)
    ensures |r| == 5 + |globalValues| + |d.values|
  {
    [d.hostName, d.hostAddress, IntToString(d.rack), IntToString(d.slot), IntToString(d.tcpPort)]
      + FormatValues(globalValues + d.values)
  }

  /** Appending fields to a joined record adds one `;` before each. */
  lemma {:induction false} JoinThenFields(xs: seq<string>, vs: seq<Value>)
    requires |xs| > 0
    ensures Join(xs + FormatValues(vs), ";") == Join(xs, ";") + ValueFields(vs)
    decreases |xs|, |vs|
  {
    var ys := FormatValues(vs);
    if |xs| > 1 {
      assert (xs + ys)[1..] == xs[1..] + ys;
      JoinThenFields(xs[1..], vs);
    } else if |vs| > 0 {
      var rest := FormatValues(vs[1..]);
      assert ys == [FormatValue(vs[0])] + rest;
      assert (xs + ys)[1..] == ys;
      JoinThenFields([ys[0]], vs[1..]);
      assert ([ys[0]] + rest)[1..] == rest;
    }
  }

  /** The address record of five fields, joined by `;`. */
  lemma JoinRecord(a: string, b: string, c: string, d: string, e: string)
    ensures Join([a, b, c, d, e], ";") == a + ";" + b + ";" + c + ";" + d + ";" + e
  {
    var head := [a, b, c, d, e];
    assert Join(head[3..], ";") == d + ";" + e by {
      assert head[3..][1..] == [e];
    }
    assert Join(head[2..], ";") == c + ";" + Join(head[3..], ";") by {
      assert head[2..][1..] == head[3..];
    }
    assert Join(head[1..], ";") == b + ";" + Join(head[2..], ";") by {
      assert head[1..][1..] == head[2..];
    }
  }

  /** The host spec is its fields joined by `;`. */
  lemma DeviceSpecIsJoin(d: Device, globalValues: seq<Value>)
    ensures DeviceSpec(d, globalValues) == Join(SpecFields(d, globalValues), ";")
  {
    var head := [d.hostName, d.hostAddress, IntToString(d.rack), IntToString(d.slot), IntToString(d.tcpPort)];
    JoinThenFields(head, globalValues + d.values);
    JoinRecord(d.hostName, d.hostAddress, IntToString(d.rack), IntToString(d.slot), IntToString(d.tcpPort));
  }

  /** When no name, address or value contains `;`, splitting a host spec on
      `;` recovers the address record and each value field in order. */
  lemma DeviceSpecFields(d: Device, globalValues: seq<Value>)
    requires ';' !in d.hostName && ';' !in d.hostAddress
    requires forall v :: v in globalValues + d.values ==> ';' !in FormatValue(v)
    ensures Split(DeviceSpec(d, globalValues), ';') == SpecFields(d, globalValues)
  {
    DeviceSpecIsJoin(d, globalValues);
    var fields := SpecFields(d, globalValues);
    forall i | 0 <= i < |fields| ensures ';' !in fields[i] {
      if 2 <= i < 5 {
        if ';' in fields[i] {
          IntToStringChars(if i == 2 then d.rack else if i == 3 then d.slot else d.tcpPort, ';');
        }
      } else if i >= 5 {
        assert (globalValues + d.values)[i - 5] in globalValues + d.values;
      }
    }
    SplitJoin(fields, ';');
  }

  /** When no part contains `,`, a value field splits back into its parts,
      and a tuple part whose items hold no `:` splits back into its items. */
  lemma ValueFieldParts(v: Value)
    requires forall i :: 0 <= i < |v| ==> ',' !in FormatPart(v[i])
    requires |v| > 0
    ensures Split(FormatValue(v), ',') == FormatParts(v)
  {
    SplitJoin(FormatParts(v), ',');
  }

  lemma TuplePartItems(items: seq<string>)
    requires |items| > 0
    requires forall i :: 0 <= i < |items| ==> ':' !in items[i]
    ensures Split(FormatPart(Tuple(items)), ':') == items
  {
    SplitJoin(items, ':');
  }
}
