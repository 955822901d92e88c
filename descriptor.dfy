/** The descriptor splitter of `load_harbour`: `HARBOUR.yml` is read line by
    line; a line `---` switches into YAML capture, a closing fence line
    switches out, both are consumed, and every other line is appended to the
    YAML text or to the script text according to the current mode. */
module Descriptor {
  import opened Strings

  const YamlStart := "---\n"
  const YamlEnd := "```\n"

  predicate IsMarker(line: string)
  {
    line == YamlStart || line == YamlEnd
  }

  /** The splitter's state: the `in_yaml` flag and the lines captured so far
      on each side. */
  datatype Split = Split(inYaml: bool, yaml: seq<string>, script: seq<string>)

  const Start := Split(false, [], [])

  /** One iteration of the loop over the descriptor's lines. */
  function Step(st: Split, line: string): Split
  {
    if line == YamlStart then st.(inYaml := true)
    else if line == YamlEnd then st.(inYaml := false)
    else if st.inYaml then st.(yaml := st.yaml + [line])
    else st.(script := st.script + [line])
  }

  function Run(st: Split, lines: seq<string>): Split
  {
    if lines == [] then st else Step(Run(st, lines[..|lines| - 1]), lines[|lines| - 1])
  }

  /** The split of a whole descriptor. */
  function SplitLines(lines: seq<string>): Split
  {
    Run(Start, lines)
  }

  /** The loop of `load_harbour` that fills `yaml_content` and `script`. */
  method SplitDescriptor(lines: seq<string>) returns (yaml: string, script: string)
    ensures yaml == Concat(SplitLines(lines).yaml)
    ensures script == Concat(SplitLines(lines).script)
  {
    yaml, script := "", "";
    var inYaml := false;
    for i := 0 to |lines|
      invariant inYaml == SplitLines(lines[..i]).inYaml
      invariant yaml == Concat(SplitLines(lines[..i]).yaml)
      invariant script == Concat(SplitLines(lines[..i]).script)
    {
      var line := lines[i];
      assert lines[..i + 1][..i] == lines[..i];
      ghost var st := SplitLines(lines[..i]);
      if line == YamlStart {
        inYaml := true;
        continue;
      }
      if line == YamlEnd {
        inYaml := false;
        continue;
      }
      if inYaml {
        ConcatAppend(st.yaml, [line]);
        assert Concat([line]) == line;
        yaml := yaml + line;
      } else {
        ConcatAppend(st.script, [line]);
        assert Concat([line]) == line;
        script := script + line;
      }
    }
    assert lines[..|lines|] == lines;
  }

  /** The lines of a descriptor that are not markers, in order. */
  function Content(lines: seq<string>): seq<string>
  {
    if lines == [] then []
    else Content(lines[..|lines| - 1]) + (if IsMarker(lines[|lines| - 1]) then [] else [lines[|lines| - 1]])
  }

  /** `c` interleaves `a` and `b`: every element of `c` is taken, in order,
      from exactly one of them. */
  predicate IsMerge(c: seq<string>, a: seq<string>, b: seq<string>)
    decreases |c|
  {
    if c == [] then a == [] && b == []
    else
      || (a != [] && a[|a| - 1] == c[|c| - 1] && IsMerge(c[..|c| - 1], a[..|a| - 1], b))
      || (b != [] && b[|b| - 1] == c[|c| - 1] && IsMerge(c[..|c| - 1], a, b[..|b| - 1]))
  }

  /** An interleaving holds every element exactly as often as its two parts together. */
  lemma {:induction false} MergeCounts(c: seq<string>, a: seq<string>, b: seq<string>)
    requires IsMerge(c, a, b)
    ensures |c| == |a| + |b|
    ensures multiset(c) == multiset(a) + multiset(b)
    decreases |c|
  {
    if c != [] {
      var c', x := c[..|c| - 1], c[|c| - 1];
      assert c == c' + [x];
      assert multiset(c) == multiset(c') + multiset{x};
      if a != [] && a[|a| - 1] == x && IsMerge(c', a[..|a| - 1], b) {
        var a' := a[..|a| - 1];
        MergeCounts(c', a', b);
        assert a == a' + [x];
        assert multiset(a) == multiset(a') + multiset{x};
      } else {
        var b' := b[..|b| - 1];
        MergeCounts(c', a, b');
        assert b == b' + [x];
        assert multiset(b) == multiset(b') + multiset{x};
      }
    }
  }

  /** Every line that is not a marker lands in exactly one of the two texts,
      and each text keeps the order of the descriptor. */
  lemma {:induction false} SplitIsMerge(lines: seq<string>)
    ensures IsMerge(Content(lines), SplitLines(lines).yaml, SplitLines(lines).script)
  {
    if lines != [] {
      var prefix, line := lines[..|lines| - 1], lines[|lines| - 1];
      SplitIsMerge(prefix);
      var st, c := SplitLines(prefix), Content(prefix);
      var r := SplitLines(lines);
      assert r == Step(st, line);
      if !IsMarker(line) {
        var c2 := c + [line];
        assert Content(lines) == c2;
        assert c2[..|c2| - 1] == c && c2[|c2| - 1] == line;
        if st.inYaml {
          assert r.yaml == st.yaml + [line] && r.script == st.script;
          assert r.yaml[..|r.yaml| - 1] == st.yaml && r.yaml[|r.yaml| - 1] == line;
        } else {
          assert r.script == st.script + [line] && r.yaml == st.yaml;
          assert r.script[..|r.script| - 1] == st.script && r.script[|r.script| - 1] == line;
        }
        assert IsMerge(c2, r.yaml, r.script);
      } else {
        assert c + [] == c;
        assert Content(lines) == c;
        assert r.yaml == st.yaml && r.script == st.script;
      }
    }
  }

  /** The markers themselves never reach either text. */
  lemma {:induction false} SplitDropsMarkers(lines: seq<string>)
    ensures forall k | 0 <= k < |SplitLines(lines).yaml| :: !IsMarker(SplitLines(lines).yaml[k])
    ensures forall k | 0 <= k < |SplitLines(lines).script| :: !IsMarker(SplitLines(lines).script[k])
  {
    if lines != [] {
      var prefix, line := lines[..|lines| - 1], lines[|lines| - 1];
      SplitDropsMarkers(prefix);
      var st := SplitLines(prefix);
      assert SplitLines(lines) == Step(st, line);
    }
  }

  /** The last marker before the end is `---`. */
  ghost predicate OpenAtEnd(lines: seq<string>)
  {
    exists j | 0 <= j < |lines| :: lines[j] == YamlStart && forall k | j < k < |lines| :: lines[k] != YamlEnd
  }

  /** The splitter is in YAML mode exactly when a `---` has been read and no
      fence has been read since. */
  lemma {:induction false} ModeIsLastMarker(lines: seq<string>)
    ensures SplitLines(lines).inYaml <==> OpenAtEnd(lines)
  {
    if lines != [] {
      var prefix, line := lines[..|lines| - 1], lines[|lines| - 1];
      ModeIsLastMarker(prefix);
      var n := |prefix|;
      if line == YamlStart {
        assert lines[n] == YamlStart;
      } else if line == YamlEnd {
        forall j | 0 <= j < |lines| && lines[j] == YamlStart
          ensures exists k | j < k < |lines| :: lines[k] == YamlEnd
        {
          assert j < n && lines[n] == YamlEnd;
        }
      } else {
        if OpenAtEnd(lines) {
          var j :| 0 <= j < |lines| && lines[j] == YamlStart && forall k | j < k < |lines| :: lines[k] != YamlEnd;
          assert j < n && prefix[j] == YamlStart;
          assert forall k | j < k < n :: prefix[k] != YamlEnd;
        }
        if OpenAtEnd(prefix) {
          var j :| 0 <= j < n && prefix[j] == YamlStart && forall k | j < k < n :: prefix[k] != YamlEnd;
          assert lines[j] == YamlStart;
          assert forall k | j < k < |lines| :: lines[k] != YamlEnd;
        }
      }
    }
  }

  lemma {:induction false} RunAppend(st: Split, a: seq<string>, b: seq<string>)
    ensures Run(st, a + b) == Run(Run(st, a), b)
    decreases |b|
  {
    if b == [] {
      assert a + b == a;
    } else {
      assert (a + b)[..|a + b| - 1] == a + b[..|b| - 1];
      RunAppend(st, a, b[..|b| - 1]);
    }
  }

  /** Lines without markers are appended, unchanged and in order, to the
      text of the current mode. */
  lemma {:induction false} RunWithoutMarkers(st: Split, xs: seq<string>)
    requires forall k | 0 <= k < |xs| :: !IsMarker(xs[k])
    ensures Run(st, xs) == if st.inYaml then st.(yaml := st.yaml + xs) else st.(script := st.script + xs)
  {
    if xs != [] {
      var xs' := xs[..|xs| - 1];
      RunWithoutMarkers(st, xs');
      assert xs' + [xs[|xs| - 1]] == xs;
      assert st.yaml + xs' + [xs[|xs| - 1]] == st.yaml + xs;
      assert st.script + xs' + [xs[|xs| - 1]] == st.script + xs;
    } else {
      assert st.yaml + xs == st.yaml && st.script + xs == st.script;
    }
  }

  /** The layout of a descriptor: script lines, `---`, YAML lines, the closing
      fence, more script lines. The YAML text is the middle part and the
      script is the first and last parts joined. */
  lemma Layout(pre: seq<string>, body: seq<string>, post: seq<string>)
    requires forall k | 0 <= k < |pre| :: !IsMarker(pre[k])
    requires forall k | 0 <= k < |body| :: !IsMarker(body[k])
    requires forall k | 0 <= k < |post| :: !IsMarker(post[k])
    ensures SplitLines(pre + [YamlStart] + body + [YamlEnd] + post) == Split(false, body, pre + post)
  {
    var a := pre + [YamlStart];
    var ab := a + body;
    var abc := ab + [YamlEnd];
    LayoutOpen(pre);
    RunAppend(Start, a, body);
    RunWithoutMarkers(Split(true, [], pre), body);
    assert [] + body == body;
    RunAppend(Start, ab, [YamlEnd]);
    assert Run(Start, abc) == Split(false, body, pre);
    RunAppend(Start, abc, post);
    RunWithoutMarkers(Split(false, body, pre), post);
  }

  lemma LayoutOpen(pre: seq<string>)
    requires forall k | 0 <= k < |pre| :: !IsMarker(pre[k])
    ensures Run(Start, pre + [YamlStart]) == Split(true, [], pre)
  {
    RunWithoutMarkers(Start, pre);
    assert [] + pre == pre;
    RunAppend(Start, pre, [YamlStart]);
  }

  /** Running more lines only appends to what has been captured. */
  lemma {:induction false} RunExtends(st: Split, xs: seq<string>)
    ensures st.yaml <= Run(st, xs).yaml && st.script <= Run(st, xs).script
  {
    if xs != [] {
      RunExtends(st, xs[..|xs| - 1]);
    }
  }

  /** Lines before the first `---` go to the script (fences among them are
      consumed), and stay at its head whatever follows. */
  lemma LeadingLinesToScript(pre: seq<string>, rest: seq<string>)
    requires YamlStart !in pre
    ensures Content(pre) <= SplitLines(pre + rest).script
  {
    LeadingRun(pre);
    RunAppend(Start, pre, rest);
    RunExtends(SplitLines(pre), rest);
  }

  lemma {:induction false} LeadingRun(pre: seq<string>)
    requires YamlStart !in pre
    ensures SplitLines(pre) == Split(false, [], Content(pre))
  {
    if pre != [] {
      var prefix := pre[..|pre| - 1];
      assert pre == prefix + [pre[|pre| - 1]];
      assert YamlStart !in prefix;
      LeadingRun(prefix);
    }
  }

  /** A `---` while already in YAML, or a fence while outside it, changes
      nothing: removing it gives the same split. */
  lemma RedundantMarker(a: seq<string>, marker: string, b: seq<string>)
    requires (marker == YamlStart && SplitLines(a).inYaml) || (marker == YamlEnd && !SplitLines(a).inYaml)
    ensures SplitLines(a + [marker] + b) == SplitLines(a + b)
  {
    RunAppend(Start, a + [marker], b);
    RunAppend(Start, a, [marker]);
    assert Run(SplitLines(a), [marker]) == Step(Run(SplitLines(a), []), marker);
    RunAppend(Start, a, b);
  }
}
