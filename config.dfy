/** The configuration loader: `load_config` reads `helenos/config.rc` line by
    line and keeps every line of the form NAME="VALUE" as a map entry. The
    file is given here as the sequence of its lines, each with its newline. */
module Config {
  import opened Wrappers

  predicate IsNameStart(c: char)
  {
    'a' <= c <= 'z' || 'A' <= c <= 'Z' || c == '_'
  }

  predicate IsNameChar(c: char)
  {
    IsNameStart(c) || '0' <= c <= '9'
  }

  /** `[a-zA-Z_][a-zA-Z0-9_]*` */
  predicate IsName(s: string)
  {
    |s| > 0 && IsNameStart(s[0]) && forall i :: 1 <= i < |s| ==> IsNameChar(s[i])
  }

  /** Reference reading of the pattern `^NAME="VALUE"$` under `re.match`:
      `.` does not match a newline, and `$` matches at the very end or just
      before one final newline. */
  predicate Matches(line: string, name: string, value: string)
  {
    && IsName(name)
    && '\n' !in value
    && (line == name + "=\"" + value + "\"" || line == name + "=\"" + value + "\"\n")
  }

  /** The line without its final newline, if it has one. */
  function StripNewline(line: string): string
  {
    if |line| > 0 && line[|line| - 1] == '\n' then line[..|line| - 1] else line
  }

  /** Length of the longest prefix of `s` made of name characters. */
  function NameLength(s: string): (n: nat)
    ensures n <= |s|
    ensures forall i :: 0 <= i < n ==> IsNameChar(s[i])
    ensures n < |s| ==> !IsNameChar(s[n])
  {
    if s == [] || !IsNameChar(s[0]) then 0 else 1 + NameLength(s[1..])
  }

  /** The match of one line: the name runs up to the first character that
      cannot be in a name, which must open `="`; the value runs from there to
      the last character before the closing quote at the end of the line. */
  function MatchLine(line: string): Option<(string, string)>
  {
    var body := StripNewline(line);
    var n := NameLength(body);
    if && 0 < n && IsNameStart(body[0])
       && n + 3 <= |body| && body[n] == '=' && body[n + 1] == '"' && body[|body| - 1] == '"'
       && '\n' !in body[n + 2..|body| - 1]
    then Some((body[..n], body[n + 2..|body| - 1]))
    else None
  }

  lemma {:induction false} NameLengthOf(name: string, rest: string)
    requires forall i :: 0 <= i < |name| ==> IsNameChar(name[i])
    requires rest != [] && !IsNameChar(rest[0])
    ensures NameLength(name + rest) == |name|
    decreases |name|
  {
    if name != [] {
      assert (name + rest)[1..] == name[1..] + rest;
      NameLengthOf(name[1..], rest);
    } else {
      assert name + rest == rest;
    }
  }

  /** The line matcher agrees with the pattern, in both directions. */
  lemma MatchLineIsPattern(line: string, name: string, value: string)
    ensures MatchLine(line) == Some((name, value)) <==> Matches(line, name, value)
  {
    if Matches(line, name, value) {
      MatchLineComplete(line, name, value);
    }
  }

  lemma MatchLineComplete(line: string, name: string, value: string)
    requires Matches(line, name, value)
    ensures MatchLine(line) == Some((name, value))
  {
    var b := name + "=\"" + value + "\"";
    assert b[|b| - 1] == '"';
    if line == b + "\n" {
      assert line[..|line| - 1] == b;
    }
    assert StripNewline(line) == b;
    assert b == name + ("=\"" + value + "\"");
    NameLengthOf(name, "=\"" + value + "\"");
    assert b[0] == name[0] && b[|name|] == '=' && b[|name| + 1] == '"';
    assert b[..|name|] == name;
    assert b[|name| + 2..|b| - 1] == value;
  }

  /** The map `load_config` builds from `lines`: lines are read in order, a
      matching line sets its name to its value and any other line is skipped. */
  function ConfigOf(lines: seq<string>): map<string, string>
  {
    if lines == [] then map[]
    else
      var cfg := ConfigOf(lines[..|lines| - 1]);
      match MatchLine(lines[|lines| - 1])
      case None => cfg
      case Some((name, value)) => cfg[name := value]
  }

  method LoadConfig(lines: seq<string>) returns (cfg: map<string, string>)
    ensures cfg == ConfigOf(lines)
  {
    cfg := map[];
    for i := 0 to |lines|
      invariant cfg == ConfigOf(lines[..i])
    {
      assert lines[..i + 1][..i] == lines[..i];
      var m := MatchLine(lines[i]);
      if m.None? {
        continue;
      }
      cfg := cfg[m.value.0 := m.value.1];
    }
    assert lines[..|lines|] == lines;
  }

  /** A line that is not of the form NAME="VALUE" leaves the map as it was;
      one that is sets NAME to VALUE, overwriting an earlier value. */
  lemma ConfigExtend(lines: seq<string>, line: string)
    ensures (forall n, v :: !Matches(line, n, v)) ==> ConfigOf(lines + [line]) == ConfigOf(lines)
    ensures forall n, v :: Matches(line, n, v) ==> ConfigOf(lines + [line]) == ConfigOf(lines)[n := v]
  {
    assert (lines + [line])[..|lines|] == lines;
    forall n, v ensures MatchLine(line) == Some((n, v)) <==> Matches(line, n, v) {
      MatchLineIsPattern(line, n, v);
    }
    if MatchLine(line).Some? {
      var (n, v) := MatchLine(line).value;
      assert Matches(line, n, v);
    }
  }

  /** `line` assigns some value to `key`. */
  ghost predicate Defines(line: string, key: string)
  {
    exists v :: Matches(line, key, v)
  }

  /** A key is in the map exactly when some line assigns it, and its value is
      the one assigned by the last such line. */
  lemma {:induction false} ConfigLastWins(lines: seq<string>, key: string)
    ensures key in ConfigOf(lines) <==> exists i | 0 <= i < |lines| :: Defines(lines[i], key)
    ensures key in ConfigOf(lines) ==>
      exists i | 0 <= i < |lines| ::
        && Matches(lines[i], key, ConfigOf(lines)[key])
        && forall j | i < j < |lines| :: !Defines(lines[j], key)
  {
    if lines != [] {
      var prefix, line := lines[..|lines| - 1], lines[|lines| - 1];
      assert lines == prefix + [line];
      ConfigLastWins(prefix, key);
      ConfigExtend(prefix, line);
      forall v ensures Matches(line, key, v) <==> MatchLine(line) == Some((key, v)) {
        MatchLineIsPattern(line, key, v);
      }
      var cfg := ConfigOf(lines);
      if Defines(line, key) {
        var v :| Matches(line, key, v);
        assert cfg == ConfigOf(prefix)[key := v];
        assert Matches(lines[|lines| - 1], key, cfg[key]);
      } else {
        assert key in cfg <==> key in ConfigOf(prefix) by {
          if MatchLine(line).Some? {
            var (n, v) := MatchLine(line).value;
            MatchLineIsPattern(line, n, v);
          }
        }
        if key in cfg {
          assert cfg[key] == ConfigOf(prefix)[key] by {
            if MatchLine(line).Some? {
              var (n, v) := MatchLine(line).value;
              MatchLineIsPattern(line, n, v);
            }
          }
          var i :| 0 <= i < |prefix| && Matches(prefix[i], key, cfg[key])
            && forall j | i < j < |prefix| :: !Defines(prefix[j], key);
          assert lines[i] == prefix[i];
          assert forall j | i < j < |lines| :: !Defines(lines[j], key);
        }
        if exists i | 0 <= i < |lines| :: Defines(lines[i], key) {
          var i :| 0 <= i < |lines| && Defines(lines[i], key);
          assert i < |prefix| && prefix[i] == lines[i];
        }
      }
    }
  }
}
