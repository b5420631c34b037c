/** The descriptions and plugin names of program data sources
    (`cmk/base/sources/programs.py`). */
module Programs {
  import opened Wrappers
  import opened Strings

  /** `ProgramSource._make_description`: the command line, and the standard
      input below it when there is any. */
  function MakeDescription(cmdline: string, stdin: Option<string>): (d: string)
    ensures StartsWith(d, "Program: " + cmdline)
  {
    var lines := ["Program: " + cmdline]
      + (if stdin.Some? && stdin.value != "" then ["  Program stdin:", stdin.value] else []);
    JoinLines(lines)
  }

  /** `"\n".join(lines)` for one or three lines. */
  function JoinLines(lines: seq<string>): (s: string)
    requires |lines| == 1 || |lines| == 3
    ensures StartsWith(s, lines[0])
  {
    Join(lines, "\n")
  }

  /** Without standard input the description is the command line alone;
      with it, the stdin block follows on new lines. */
  lemma DescriptionShape(cmdline: string, stdin: Option<string>)
    ensures stdin.None? || stdin.value == "" ==> MakeDescription(cmdline, stdin) == "Program: " + cmdline
    ensures stdin.Some? && stdin.value != "" ==>
      MakeDescription(cmdline, stdin) == "Program: " + cmdline + "\n" + "  Program stdin:" + "\n" + stdin.value
  {
    if stdin.Some? && stdin.value != "" {
      var lines := ["Program: " + cmdline, "  Program stdin:", stdin.value];
      assert Join(lines[1..], "\n") == "  Program stdin:" + "\n" + stdin.value by {
        assert lines[1..][1..] == [stdin.value];
      }
      assert Join(lines, "\n") == lines[0] + "\n" + Join(lines[1..], "\n");
    }
  }

  /** When the command line is a single line, the description's first line
      is the command line, and the stdin block appears as lines of its own. */
  lemma DescriptionLines(cmdline: string, stdin: Option<string>)
    requires '\n' !in cmdline
    ensures Split(MakeDescription(cmdline, stdin), '\n')[0] == "Program: " + cmdline
    ensures stdin.Some? && stdin.value != "" && '\n' !in stdin.value ==>
      Split(MakeDescription(cmdline, stdin), '\n') == ["Program: " + cmdline, "  Program stdin:", stdin.value]
    ensures stdin.None? ==> Split(MakeDescription(cmdline, stdin), '\n') == ["Program: " + cmdline]
  {
    var first := "Program: " + cmdline;
    assert '\n' !in first;
    if stdin.Some? && stdin.value != "" {
      var lines := [first, "  Program stdin:", stdin.value];
      if '\n' !in stdin.value {
        SplitJoin(lines, '\n');
      } else {
        var rest := Join(lines[1..], "\n");
        assert Join(lines, "\n") == first + "\n" + rest;
        IndexAfterPrefix(first, '\n', rest);
        var s := first + "\n" + rest;
        assert s[..IndexOf(s, '\n')] == first;
      }
    } else {
      SplitJoin([first], '\n');
    }
  }

  /** `DSProgramSource` passes no standard input, so its description is the
      command line alone. */
  function DsProgramDescription(cmdline: string): (d: string)
    ensures d == "Program: " + cmdline
  {
    DescriptionShape(cmdline, None);
    MakeDescription(cmdline, None)
  }

  /** `SpecialAgentSource.special_agent_plugin_file_name`. */
  function SpecialAgentPluginFileName(agentName: string): (name: string)
    ensures StartsWith(name, "agent_") && name[6..] == agentName
  {
    "agent_" + agentName
  }
}
