/**
 * The new-profile form of `web/src/App.tsx`: the multi-line `KEY=VALUE`
 * textarea parser of `handleSubmit` and the text `copyCommand` puts on
 * the clipboard.
 */
module WebForm {
  import opened Wrappers
  import opened Text
  import opened Types
  import opened EnvMap

  /**
   * One textarea line: `const [key, ...val] = line.split('=')`, kept when
   * the raw `key` is non-empty and there is at least one `=`; stored under
   * the trimmed key with the trimmed rest of the line as value. The check
   * is on the untrimmed key, so a white-space-only key is kept and becomes
   * the empty key.
   */
  function ParseLine(line: string): (e: Option<EnvVar>)
    ensures e.Some? <==> '=' in line && IndexOf(line, '=') > 0
    ensures e.Some? ==> e.value == EnvVar(Trim(line[..IndexOf(line, '=')]), Trim(line[IndexOf(line, '=') + 1..]))
  {
    var parts := Split(line, '=');
    SplitHead(line, '=');
    if parts[0] != "" && |parts| > 1 then Some(EnvVar(Trim(parts[0]), Trim(Join(parts[1..], '=')))) else None
  }

  /** The parse of each line of the textarea, position by position. */
  function LineEntries(lines: seq<string>): (entries: seq<Option<EnvVar>>)
    ensures |entries| == |lines|
    ensures forall i :: 0 <= i < |lines| ==> entries[i] == ParseLine(lines[i])
  {
    seq(|lines|, i requires 0 <= i < |lines| => ParseLine(lines[i]))
  }

  /** The `forEach` over the textarea's lines, building `envMap`. */
  function ParseLines(lines: seq<string>): Env
  {
    Assign(map[], LineEntries(lines))
  }

  /** `formData.envVars.split('\n')` followed by that `forEach`. */
  function ParseEnvText(text: string): Env
  {
    ParseLines(Split(text, '\n'))
  }

  /**
   * Text typed as newline-free lines joined by `\n` parses exactly as those
   * lines, so `ParseLinesKeys` and `ParseLinesLastWins` describe it.
   */
  lemma ParseEnvTextOfLines(lines: seq<string>)
    requires |lines| >= 1
    requires forall i :: 0 <= i < |lines| ==> '\n' !in lines[i]
    ensures ParseEnvText(Join(lines, '\n')) == ParseLines(lines)
  {
    SplitJoin(lines, '\n');
  }

  /** The two lines of `ParseEnvTextLaterLineWins`, parsed. */
  lemma ParseTwoLines()
    ensures ParseLine("A=1") == Some(EnvVar("A", "1"))
    ensures ParseLine("A=2") == Some(EnvVar("A", "2"))
  {
    assert ParseLine("A=1") == Some(EnvVar("A", "1")) by {
      assert IndexOf("A=1", '=') == 1;
      assert "A=1"[..1] == "A" && "A=1"[2..] == "1";
      assert TrimStart("A") == "A" && TrimEnd("A") == "A";
      assert TrimStart("1") == "1" && TrimEnd("1") == "1";
    }
    assert ParseLine("A=2") == Some(EnvVar("A", "2")) by {
      assert IndexOf("A=2", '=') == 1;
      assert "A=2"[..1] == "A" && "A=2"[2..] == "2";
      assert TrimStart("2") == "2" && TrimEnd("2") == "2";
    }
  }

  /** Two lines with the same key: the value of the later one is kept. */
  lemma ParseEnvTextLaterLineWins()
    ensures ParseEnvText("A=1\nA=2") == map["A" := "2"]
  {
    var lines := ["A=1", "A=2"];
    assert Join(lines[1..], '\n') == "A=2";
    assert Join(lines, '\n') == "A=1\nA=2";
    ParseEnvTextOfLines(lines);
    ParseTwoLines();
    assert LineEntries(lines) == [Some(EnvVar("A", "1")), Some(EnvVar("A", "2"))];
    AssignTwice();
  }

  /** Assigning `A=1` then `A=2` into an empty object leaves `A=2`. */
  lemma AssignTwice()
    ensures Assign(map[], [Some(EnvVar("A", "1")), Some(EnvVar("A", "2"))]) == map["A" := "2"]
  {
    var entries := [Some(EnvVar("A", "1")), Some(EnvVar("A", "2"))];
    assert entries[1..][1..] == [];
    assert Step(map[], entries[0]) == map["A" := "1"];
    assert Assign(map[], entries) == Assign(map["A" := "1"], entries[1..]);
    assert Assign(map["A" := "1"], entries[1..]) == Assign(map["A" := "2"], []);
  }

  /** The keys of the parsed map: those of the accepted lines, except `__proto__`. */
  lemma ParseLinesKeys(lines: seq<string>)
    ensures forall k :: k in ParseLines(lines) <==>
              k != ProtoKey &&
              exists i :: 0 <= i < |lines| && ParseLine(lines[i]).Some? && ParseLine(lines[i]).value.key == k
  {
    var entries := LineEntries(lines);
    AssignedKeys(entries);
    forall k ensures k in ParseLines(lines) <==>
                     k != ProtoKey &&
                     exists i :: 0 <= i < |lines| && ParseLine(lines[i]).Some? && ParseLine(lines[i]).value.key == k
    {
      if k in ParseLines(lines) {
        var i :| 0 <= i < |entries| && entries[i].Some? && entries[i].value.key == k;
        assert entries[i] == ParseLine(lines[i]);
      }
      if k != ProtoKey && exists i :: 0 <= i < |lines| && ParseLine(lines[i]).Some? && ParseLine(lines[i]).value.key == k {
        var i :| 0 <= i < |lines| && ParseLine(lines[i]).Some? && ParseLine(lines[i]).value.key == k;
        assert entries[i] == ParseLine(lines[i]);
      }
    }
  }

  /** A key's value comes from the last accepted line that has it. */
  lemma ParseLinesLastWins(lines: seq<string>)
    ensures forall i ::
              (&& 0 <= i < |lines| && ParseLine(lines[i]).Some? && ParseLine(lines[i]).value.key != ProtoKey
               && forall j :: i < j < |lines| && ParseLine(lines[j]).Some? ==>
                    ParseLine(lines[j]).value.key != ParseLine(lines[i]).value.key)
              ==> && ParseLine(lines[i]).value.key in ParseLines(lines)
                  && ParseLines(lines)[ParseLine(lines[i]).value.key] == ParseLine(lines[i]).value.value
  {
    var entries := LineEntries(lines);
    AssignSpec(map[], entries);
    forall i | && 0 <= i < |lines| && ParseLine(lines[i]).Some? && ParseLine(lines[i]).value.key != ProtoKey
               && forall j :: i < j < |lines| && ParseLine(lines[j]).Some? ==>
                    ParseLine(lines[j]).value.key != ParseLine(lines[i]).value.key
      ensures ParseLine(lines[i]).value.key in ParseLines(lines)
      ensures ParseLines(lines)[ParseLine(lines[i]).value.key] == ParseLine(lines[i]).value.value
    {
      assert IsLastFor(entries, i);
    }
  }

  /** ` A = x=y ` is stored as `A` with value `x=y`: key and value are trimmed, the value keeps its `=`. */
  lemma ParseLineTrims()
    ensures ParseLine(" A = x=y ") == Some(EnvVar("A", "x=y"))
  {
    var line := " A = x=y ";
    assert line[0] != '=' && line[1] != '=' && line[2] != '=' && line[3] == '=';
    assert IndexOf(line, '=') == 3;
    assert line[..3] == " A " && line[4..] == " x=y ";
    assert " A "[1..] == "A ";
    assert TrimStart("A ") == "A ";
    assert "A "[..1] == "A";
    assert TrimEnd("A ") == TrimEnd("A") == "A";
    assert " x=y "[1..] == "x=y ";
    assert TrimStart("x=y ") == "x=y ";
    assert "x=y "[..3] == "x=y";
    assert TrimEnd("x=y ") == TrimEnd("x=y") == "x=y";
  }

  /** `  =v` passes the raw-key check but is stored under the empty key; `=v` is skipped. */
  lemma ParseLineBlankKey()
    ensures ParseLine("  =v") == Some(EnvVar("", "v"))
    ensures ParseLine("=v") == None
  {
    var line := "  =v";
    assert line[0] != '=' && line[1] != '=' && line[2] == '=';
    assert IndexOf(line, '=') == 2;
    assert line[..2] == "  " && line[3..] == "v";
    assert "  "[1..] == " " && " "[1..] == "";
    assert TrimStart("  ") == TrimStart(" ") == TrimStart("") == "";
    assert TrimStart("v") == "v" && TrimEnd("v") == "v";
    assert IndexOf("=v", '=') == 0;
  }

  /** `copyCommand(name)`: the text `ais run <name> -- ` put on the clipboard. */
  function CopyCommand(name: string): (command: string)
    ensures |command| == |name| + 12
    ensures command[..8] == "ais run " && command[8..8 + |name|] == name && command[8 + |name|..] == " -- "
  {
    "ais run " + name + " -- "
  }

  /**
   * For a name without spaces the copied text splits on spaces into
   * `ais`, `run`, the name, `--` and the empty word the user types over.
   */
  lemma CopyCommandWords(name: string)
    requires ' ' !in name
    ensures Split(CopyCommand(name), ' ') == ["ais", "run", name, "--", ""]
  {
    var words := ["ais", "run", name, "--", ""];
    assert Join(words[4..], ' ') == "";
    assert Join(words[3..], ' ') == "--" + " ";
    assert Join(words[2..], ' ') == name + " " + "-- ";
    assert Join(words[1..], ' ') == "run " + name + " -- ";
    assert Join(words, ' ') == CopyCommand(name);
    SplitJoin(words, ' ');
  }
}
